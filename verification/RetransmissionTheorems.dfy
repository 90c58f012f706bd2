/** What the retransmission buffer's insertion keeps: its layout, its timestamp window and its size. */
module RetransmissionTheorems {
  import opened SeqArithmetic
  import opened RetransmissionBuffer

  // ---------------------------------------------------------------- layout

  lemma AppendWellFormed(base: Slots, blanks: Seq16, item: Item)
    requires |base| > 0 && WellFormed(base)
    requires Sub16(item.sequenceNumber, Newest(base).sequenceNumber) == blanks + 1
    ensures WellFormed(base + Blanks(blanks) + [item])
  {
    var r := base + Blanks(blanks) + [item];
    var front := base[0].sequenceNumber;
    assert r[0] == base[0] && r[|r| - 1] == item;
    assert item.sequenceNumber == Wrap16(Newest(base).sequenceNumber + blanks + 1);
    WrapAdd(front + |base| - 1, blanks + 1);
    forall i | 0 <= i < |r| && r[i] != null
      ensures r[i].sequenceNumber == Wrap16(front + i)
    {
      if i < |base| {
        assert r[i] == base[i];
      } else {
        assert i == |r| - 1;
      }
    }
  }

  lemma PrependWellFormed(base: Slots, blanks: Seq16, item: Item)
    requires |base| > 0 && WellFormed(base)
    requires Sub16(base[0].sequenceNumber, item.sequenceNumber) == blanks + 1
    ensures WellFormed([item] + Blanks(blanks) + base)
  {
    var r := [item] + Blanks(blanks) + base;
    assert r[0] == item && r[|r| - 1] == base[|base| - 1];
    assert base[0].sequenceNumber == Wrap16(item.sequenceNumber + blanks + 1);
    forall i | 0 <= i < |r| && r[i] != null
      ensures r[i].sequenceNumber == Wrap16(item.sequenceNumber + i)
    {
      if i > 0 {
        assert r[i] == base[i - blanks - 1];
        WrapAdd(item.sequenceNumber + blanks + 1, i - blanks - 1);
      }
    }
  }

  /** What making room can leave: everything, nothing, or all but the oldest item. */
  lemma RoomCases(limits: Limits, slots: Slots, blanks: Seq16)
    requires |slots| > 0 && WellFormed(slots)
    ensures var room := MakeRoomFor(limits, slots, blanks);
            || room == Room([], 0)
            || room == Room(slots, blanks)
            || (|slots| > 1 && room == Room(DropOldest(slots), blanks))
  {
  }

  /** Making room, in terms of the excess. */
  lemma RoomByExcess(limits: Limits, slots: Slots, step: Seq16)
    requires limits.maxItems >= 1 && step > 0 && 0 < |slots| <= 0x1_0000 - step
    ensures var excess := |slots| + step - limits.maxItems;
            MakeRoomFor(limits, slots, step - 1)
            == if excess <= 0 then Room(slots, step - 1)
               else if excess >= |slots| then Room([], 0)
               else Room(DropOldest(slots), step - 1)
  {
    var excess := |slots| + step - limits.maxItems;
    if excess > 0 {
      assert Wrap16(|slots| + (step - 1) + 1 - limits.maxItems) == excess;
    }
  }

  /** What branch 4 can leave. */
  lemma PlaceNewerCases(limits: Limits, slots: Slots, item: Item)
    requires |slots| > 0 && WellFormed(slots)
    requires SeqHigher(item.sequenceNumber, Newest(slots).sequenceNumber)
    ensures var r := PlaceNewer(limits, slots, item);
            var gap := Blanks(Sub16(item.sequenceNumber, Newest(slots).sequenceNumber) - 1);
            || (r == slots && TsLower(item.timestamp, Newest(slots).timestamp))
            || r == [item]
            || r == slots + gap + [item]
            || (|slots| > 1 && r == DropOldest(slots) + gap + [item])
  {
    RoomCases(limits, slots, Sub16(item.sequenceNumber, Newest(slots).sequenceNumber) - 1);
    assert [] + Blanks(0) + [item] == [item];
  }

  lemma PlaceNewerWellFormed(limits: Limits, slots: Slots, item: Item)
    requires |slots| > 0 && WellFormed(slots)
    requires SeqHigher(item.sequenceNumber, Newest(slots).sequenceNumber)
    ensures WellFormed(PlaceNewer(limits, slots, item))
  {
    var r := PlaceNewer(limits, slots, item);
    var blanks := Sub16(item.sequenceNumber, Newest(slots).sequenceNumber) - 1;
    PlaceNewerCases(limits, slots, item);
    if r == slots || r == [item] {
    } else if r == slots + Blanks(blanks) + [item] {
      AppendWellFormed(slots, blanks, item);
    } else {
      DropOldestWellFormed(slots);
      AppendWellFormed(DropOldest(slots), blanks, item);
    }
  }

  lemma PlaceOlderWellFormed(limits: Limits, slots: Slots, item: Item)
    requires limits.clockRate > 0 && |slots| > 0 && WellFormed(slots)
    requires SeqLower(item.sequenceNumber, slots[0].sequenceNumber)
    ensures WellFormed(PlaceOlder(limits, slots, item))
  {
    PrependWellFormed(slots, Sub16(slots[0].sequenceNumber, item.sequenceNumber) - 1, item);
  }

  lemma PlaceBetweenWellFormed(slots: Slots, item: Item)
    requires |slots| > 0 && WellFormed(slots)
    requires !SeqHigher(item.sequenceNumber, Newest(slots).sequenceNumber)
    requires !SeqLower(item.sequenceNumber, slots[0].sequenceNumber)
    ensures WellFormed(PlaceBetween(slots, item))
  {
    BetweenIsInRange(slots, item.sequenceNumber);
  }

  lemma PlaceWellFormed(limits: Limits, slots: Slots, item: Item)
    requires limits.clockRate > 0 && |slots| > 0 && WellFormed(slots)
    ensures WellFormed(Place(limits, slots, item))
  {
    if SeqHigher(item.sequenceNumber, Newest(slots).sequenceNumber) {
      PlaceNewerWellFormed(limits, slots, item);
    } else if SeqLower(item.sequenceNumber, slots[0].sequenceNumber) {
      PlaceOlderWellFormed(limits, slots, item);
    } else {
      PlaceBetweenWellFormed(slots, item);
    }
  }

  /** No insertion, whatever its packet, ever breaks the layout. */
  lemma InsertKeepsLayout(limits: Limits, slots: Slots, item: Item)
    requires limits.clockRate > 0 && WellFormed(slots)
    ensures WellFormed(InsertItem(limits, slots, item))
  {
    if |slots| > 0 && !TimestampRestart(slots, item) {
      var kept := ClearTooOld(limits, slots, NewestTimestamp(slots, item));
      ClearTooOldWellFormed(limits, slots, NewestTimestamp(slots, item));
      if |kept| > 0 {
        PlaceWellFormed(limits, kept, item);
      }
    }
  }

  // ---------------------------------------------------------------- timeline

  /** In a sound configuration the older of two ages is rejected whenever the younger is, half of the
      timestamp circle always is, and the rejected ages are those beyond the delay. */
  lemma AgeIsMonotone(limits: Limits, young: Ts32, aged: Ts32)
    requires SoundLimits(limits) && young <= aged
    ensures AgeTooOld(limits, young) ==> AgeTooOld(limits, aged)
    ensures aged >= 0x8000_0000 ==> AgeTooOld(limits, aged)
    ensures AgeTooOld(limits, young) <==> !WithinDelay(limits, young)
    ensures AgeTooOld(limits, aged) <==> !WithinDelay(limits, aged)
  {
    hide AgeTooOld;
    AgeInTicks(limits, young);
    AgeInTicks(limits, aged);
  }

  /** Every stored item sits less than half a circle after the front. */
  lemma TimelineBound(limits: Limits, slots: Slots, i: nat)
    requires SoundLimits(limits) && Timeline(limits, slots) && i < |slots| && slots[i] != null
    ensures TimelineAt(slots, i) <= TimelineAt(slots, |slots| - 1) < 0x8000_0000
  {
    var span := TimelineAt(slots, |slots| - 1);
    AgeIsMonotone(limits, span, span);
  }

  lemma SuffixTimeline(limits: Limits, slots: Slots, k: nat)
    requires SoundLimits(limits) && Timeline(limits, slots) && k < |slots| && slots[k] != null
    ensures Timeline(limits, slots[k..])
  {
    var r := slots[k..];
    var start := TimelineAt(slots, k);
    forall i | 0 <= i < |r| && r[i] != null
      ensures TimelineAt(r, i) == TimelineAt(slots, k + i) - start
    {
      TimelineBound(limits, slots, k + i);
    }
    assert r[|r| - 1] == slots[|slots| - 1];
    AgeIsMonotone(limits, TimelineAt(r, |r| - 1), TimelineAt(slots, |slots| - 1));
  }

  /** A timestamp that the clearing step accepts as following the front: not before it on the
      circle, and within the window. */
  ghost predicate Follows(limits: Limits, front: Ts32, timestamp: Ts32)
    requires limits.clockRate > 0
  {
    !TsHigher(front, timestamp) && !IsTooOldTimestamp(limits, front, timestamp)
  }

  lemma AppendTimeline(limits: Limits, base: Slots, blanks: nat, item: Item)
    requires SoundLimits(limits) && |base| > 0 && Timeline(limits, base)
    requires !TsLower(item.timestamp, Newest(base).timestamp)
    requires Follows(limits, base[0].timestamp, item.timestamp)
    ensures Timeline(limits, base + Blanks(blanks) + [item])
  {
    var r := base + Blanks(blanks) + [item];
    var span := TimelineAt(base, |base| - 1);
    TimelineBound(limits, base, |base| - 1);
    AgeIsMonotone(limits, 0, Sub32(item.timestamp, base[0].timestamp));
    hide AgeTooOld, WithinDelay;
    assert r[0] == base[0] && r[|r| - 1] == item;
    assert TimelineAt(r, |r| - 1) == span + Sub32(item.timestamp, Newest(base).timestamp);
    forall i, j | 0 <= i < j < |r| && r[i] != null && r[j] != null
      ensures TimelineAt(r, i) <= TimelineAt(r, j)
    {
      assert i < |base| && r[i] == base[i];
      TimelineBound(limits, base, i);
      if j < |base| {
        assert r[j] == base[j];
      }
    }
  }

  /** What follows the front follows every later item too. */
  lemma FollowsLaterItem(limits: Limits, slots: Slots, k: nat, timestamp: Ts32)
    requires SoundLimits(limits) && Timeline(limits, slots) && k < |slots| && slots[k] != null
    requires Follows(limits, slots[0].timestamp, timestamp)
    requires !TsLower(timestamp, Newest(slots).timestamp)
    ensures Follows(limits, slots[k].timestamp, timestamp)
  {
    TimelineBound(limits, slots, k);
    var age := Sub32(timestamp, slots[0].timestamp);
    assert age == TimelineAt(slots, |slots| - 1) + Sub32(timestamp, Newest(slots).timestamp);
    assert Sub32(timestamp, slots[k].timestamp) == age - TimelineAt(slots, k);
    AgeIsMonotone(limits, Sub32(timestamp, slots[k].timestamp), age);
  }

  /** An older packet in front shifts the whole timeline by its lead. */
  lemma PrependShifts(limits: Limits, base: Slots, blanks: nat, item: Item, j: nat)
    requires SoundLimits(limits) && |base| > 0 && Timeline(limits, base)
    requires !TsHigher(item.timestamp, Newest(base).timestamp)
    requires !IsTooOldTimestamp(limits, item.timestamp, Newest(base).timestamp)
    requires !TsHigher(item.timestamp, base[0].timestamp)
    requires blanks < j < blanks + 1 + |base| && base[j - blanks - 1] != null
    ensures var r := [item] + Blanks(blanks) + base;
            && r[j] == base[j - blanks - 1]
            && TimelineAt(r, j)
               == Sub32(base[0].timestamp, item.timestamp) + TimelineAt(base, j - blanks - 1)
  {
    var r := [item] + Blanks(blanks) + base;
    assert r[j] == base[j - blanks - 1];
    var age := Sub32(Newest(base).timestamp, item.timestamp);
    AgeIsMonotone(limits, age, age);
    TimelineBound(limits, base, |base| - 1);
    TimelineBound(limits, base, j - blanks - 1);
    assert age == Sub32(base[0].timestamp, item.timestamp) + TimelineAt(base, |base| - 1);
  }

  lemma PrependTimeline(limits: Limits, base: Slots, blanks: nat, item: Item)
    requires SoundLimits(limits) && |base| > 0 && Timeline(limits, base)
    requires !TsHigher(item.timestamp, Newest(base).timestamp)
    requires !IsTooOldTimestamp(limits, item.timestamp, Newest(base).timestamp)
    requires !TsHigher(item.timestamp, base[0].timestamp)
    ensures Timeline(limits, [item] + Blanks(blanks) + base)
  {
    var r := [item] + Blanks(blanks) + base;
    AgeIsMonotone(limits, 0, Sub32(Newest(base).timestamp, item.timestamp));
    hide AgeTooOld, WithinDelay, SoundLimits;
    assert r[|r| - 1] == base[|base| - 1];
    forall i, j | 0 <= i < j < |r| && r[i] != null && r[j] != null
      ensures TimelineAt(r, i) <= TimelineAt(r, j)
    {
      assert j > blanks && r[j] == base[j - blanks - 1];
      PrependShifts(limits, base, blanks, item, j);
      if i > 0 {
        assert r[i] == base[i - blanks - 1];
        PrependShifts(limits, base, blanks, item, i);
      }
    }
  }

  // ---------------------------------------------------------------- the gap between two items

  /** The stored items on either side of an empty slot. */
  ghost predicate Neighbours(slots: Slots, a: nat, idx: nat, b: nat) {
    && a < idx < b < |slots|
    && slots[a] != null && slots[b] != null
    && forall i | a < i < b :: slots[i] == null
  }

  lemma {:induction false} OlderFitsMeans(slots: Slots, a: nat, n: nat, timestamp: Ts32)
    requires a < n <= |slots| && slots[a] != null && forall i | a < i < n :: slots[i] == null
    ensures OlderFits(slots, n, timestamp) <==> slots[a].timestamp <= timestamp
  {
    if n - 1 > a {
      OlderFitsMeans(slots, a, n - 1, timestamp);
    }
  }

  lemma {:induction false} NewerFitsMeans(slots: Slots, n: nat, b: nat, timestamp: Ts32)
    requires n <= b < |slots| && slots[b] != null && forall i | n <= i < b :: slots[i] == null
    ensures NewerFits(slots, n, timestamp) <==> timestamp <= slots[b].timestamp
    decreases b - n
  {
    if n < b {
      NewerFitsMeans(slots, n + 1, b, timestamp);
    }
  }

  lemma {:induction false} LastItemBelow(slots: Slots, n: nat) returns (a: nat)
    requires 0 < n <= |slots| && slots[0] != null
    ensures a < n && slots[a] != null && forall i | a < i < n :: slots[i] == null
  {
    if slots[n - 1] != null {
      a := n - 1;
    } else {
      a := LastItemBelow(slots, n - 1);
    }
  }

  lemma FindNeighbours(slots: Slots, idx: nat) returns (a: nat, b: nat)
    requires WellFormed(slots) && 0 < idx < |slots| && slots[idx] == null
    ensures Neighbours(slots, a, idx, b)
  {
    a := LastItemBelow(slots, idx);
    b := FirstItem(slots, idx);
  }

  /** The comparisons of branch 6 are on raw values. They accept a packet exactly when its
      timestamp lies between its neighbours on the timeline and the timeline does not wrap between
      these two: a wrap in the gap makes the buffer refuse every packet for it. */
  lemma GapAcceptsExactly(limits: Limits, slots: Slots, item: Item, a: nat, b: nat)
    requires SoundLimits(limits) && |slots| > 0 && WellFormed(slots) && Timeline(limits, slots)
    requires !SeqHigher(item.sequenceNumber, Newest(slots).sequenceNumber)
    requires !SeqLower(item.sequenceNumber, slots[0].sequenceNumber)
    requires Neighbours(slots, a, Sub16(item.sequenceNumber, slots[0].sequenceNumber), b)
    ensures var low, high := slots[a].timestamp, slots[b].timestamp;
            var idx := Sub16(item.sequenceNumber, slots[0].sequenceNumber);
            PlaceBetween(slots, item)
            == if Sub32(item.timestamp, low) <= Sub32(high, low) && low <= high
               then slots[idx := item] else slots
  {
    var idx := Sub16(item.sequenceNumber, slots[0].sequenceNumber);
    BetweenIsInRange(slots, item.sequenceNumber);
    OlderFitsMeans(slots, a, idx, item.timestamp);
    NewerFitsMeans(slots, idx + 1, b, item.timestamp);
  }

  lemma FillGapTimeline(limits: Limits, slots: Slots, idx: nat, item: Item, a: nat, b: nat)
    requires SoundLimits(limits) && WellFormed(slots) && Timeline(limits, slots)
    requires Neighbours(slots, a, idx, b)
    requires slots[a].timestamp <= item.timestamp <= slots[b].timestamp
    ensures Timeline(limits, slots[idx := item])
  {
    var r := slots[idx := item];
    TimelineBound(limits, slots, a);
    TimelineBound(limits, slots, b);
    assert TimelineAt(slots, a) <= TimelineAt(r, idx) <= TimelineAt(slots, b);
    forall i, j | 0 <= i < j < |r| && r[i] != null && r[j] != null
      ensures TimelineAt(r, i) <= TimelineAt(r, j)
    {
      if i == idx {
        assert b <= j && TimelineAt(slots, b) <= TimelineAt(slots, j);
      } else if j == idx {
        assert i <= a && TimelineAt(slots, i) <= TimelineAt(slots, a);
      } else {
        assert TimelineAt(slots, i) <= TimelineAt(slots, j);
      }
    }
  }

  lemma PlaceBetweenTimeline(limits: Limits, slots: Slots, item: Item)
    requires SoundLimits(limits) && |slots| > 0 && WellFormed(slots) && Timeline(limits, slots)
    requires !SeqHigher(item.sequenceNumber, Newest(slots).sequenceNumber)
    requires !SeqLower(item.sequenceNumber, slots[0].sequenceNumber)
    ensures Timeline(limits, PlaceBetween(slots, item))
  {
    var idx := Sub16(item.sequenceNumber, slots[0].sequenceNumber);
    BetweenIsInRange(slots, item.sequenceNumber);
    if slots[idx] == null {
      var a, b := FindNeighbours(slots, idx);
      GapAcceptsExactly(limits, slots, item, a, b);
      if PlaceBetween(slots, item) != slots {
        FillGapTimeline(limits, slots, idx, item, a, b);
      }
    }
  }

  // ---------------------------------------------------------------- the whole insertion

  /** The packet's timestamp is so far ahead that the front seems to be in the future, which
      `IsTooOldTimestamp` takes for "not too old". */
  predicate JumpTooFar(slots: Slots, item: Item)
    requires |slots| > 0 && WellFormed(slots)
  {
    TsHigher(slots[0].timestamp, NewestTimestamp(slots, item))
  }

  lemma AgeOfZero(limits: Limits)
    requires limits.clockRate >= 1000
    ensures !AgeTooOld(limits, 0) && WithinDelay(limits, 0)
  {
    AgeInTicks(limits, 0);
  }

  lemma SingletonTimeline(limits: Limits, item: Item)
    requires SoundLimits(limits)
    ensures Timeline(limits, [item])
  {
    var slots: Slots := [item];
    assert TimelineAt(slots, 0) == 0;
    AgeOfZero(limits);
  }

  lemma PlaceNewerTimeline(limits: Limits, slots: Slots, item: Item)
    requires SoundLimits(limits) && |slots| > 0 && WellFormed(slots) && Timeline(limits, slots)
    requires SeqHigher(item.sequenceNumber, Newest(slots).sequenceNumber)
    requires TsLower(item.timestamp, Newest(slots).timestamp)
             || Follows(limits, slots[0].timestamp, item.timestamp)
    ensures Timeline(limits, PlaceNewer(limits, slots, item))
  {
    var r := PlaceNewer(limits, slots, item);
    var blanks := Sub16(item.sequenceNumber, Newest(slots).sequenceNumber) - 1;
    PlaceNewerCases(limits, slots, item);
    if r == slots {
    } else if r == [item] {
      SingletonTimeline(limits, item);
    } else if r == slots + Blanks(blanks) + [item] {
      AppendTimeline(limits, slots, blanks, item);
    } else {
      DropOldestWellFormed(slots);
      var k := FirstItem(slots, 1);
      SuffixTimeline(limits, slots, k);
      FollowsLaterItem(limits, slots, k, item.timestamp);
      AppendTimeline(limits, slots[k..], blanks, item);
    }
  }

  lemma PlaceOlderTimeline(limits: Limits, slots: Slots, item: Item)
    requires SoundLimits(limits) && |slots| > 0 && WellFormed(slots) && Timeline(limits, slots)
    requires SeqLower(item.sequenceNumber, slots[0].sequenceNumber)
    requires !TsHigher(item.timestamp, Newest(slots).timestamp)
    ensures Timeline(limits, PlaceOlder(limits, slots, item))
  {
    var blanks := Sub16(slots[0].sequenceNumber, item.sequenceNumber) - 1;
    if !IsTooOldTimestamp(limits, item.timestamp, Newest(slots).timestamp)
       && !TsHigher(item.timestamp, slots[0].timestamp) {
      PrependTimeline(limits, slots, blanks, item);
    }
  }

  /** Clearing leaves a timeline whose front is followed by the timestamp it was cleared with. */
  lemma ClearTooOldTimeline(limits: Limits, slots: Slots, timestamp: Ts32)
    requires SoundLimits(limits) && |slots| > 0 && WellFormed(slots) && Timeline(limits, slots)
    requires !TsHigher(slots[0].timestamp, timestamp) && !TsLower(timestamp, Newest(slots).timestamp)
    ensures var kept := ClearTooOld(limits, slots, timestamp);
            && Timeline(limits, kept)
            && (|kept| > 0 ==> kept[0] != null && Follows(limits, kept[0].timestamp, timestamp))
  {
    var k := FirstYoung(limits, slots, timestamp, 0);
    if k < |slots| {
      SuffixTimeline(limits, slots, k);
      TimelineBound(limits, slots, k);
      assert Sub32(timestamp, slots[0].timestamp)
             == TimelineAt(slots, |slots| - 1) + Sub32(timestamp, Newest(slots).timestamp);
      assert Sub32(timestamp, slots[k].timestamp)
             == Sub32(timestamp, slots[0].timestamp) - TimelineAt(slots, k);
      assert Sub32(timestamp, slots[k].timestamp) <= 0x8000_0000;
      AgeIsMonotone(limits, 0x8000_0000, 0x8000_0000);
    }
  }

  lemma PlaceTimeline(limits: Limits, slots: Slots, item: Item)
    requires SoundLimits(limits) && |slots| > 0 && WellFormed(slots) && Timeline(limits, slots)
    requires !TimestampRestart(slots, item)
    requires Follows(limits, slots[0].timestamp, NewestTimestamp(slots, item))
    ensures Timeline(limits, Place(limits, slots, item))
  {
    var oldest, newest := slots[0].sequenceNumber, Newest(slots).sequenceNumber;
    if SeqHigher(item.sequenceNumber, newest) {
      PlaceNewerTimeline(limits, slots, item);
    } else if SeqLower(item.sequenceNumber, oldest) {
      if TsHigher(item.timestamp, Newest(slots).timestamp) {
        // The number is the newest one's, in a buffer longer than half of the number circle.
        AgeIsMonotone(limits, 0, Sub32(item.timestamp, slots[0].timestamp));
        TimelineBound(limits, slots, |slots| - 1);
        assert TsHigher(item.timestamp, slots[0].timestamp);
      } else {
        PlaceOlderTimeline(limits, slots, item);
      }
    } else {
      PlaceBetweenTimeline(limits, slots, item);
    }
  }

  /** Every insertion whose packet is not too far ahead keeps one nondecreasing timeline no longer
      than the window, although branch 6 compares raw 32-bit values. */
  lemma InsertKeepsTimeline(limits: Limits, slots: Slots, item: Item)
    requires SoundLimits(limits) && WellFormed(slots) && Timeline(limits, slots)
    requires |slots| > 0 ==> !JumpTooFar(slots, item)
    ensures Timeline(limits, InsertItem(limits, slots, item))
  {
    SingletonTimeline(limits, item);
    if |slots| > 0 && !TimestampRestart(slots, item) {
      var timestamp := NewestTimestamp(slots, item);
      var kept := ClearTooOld(limits, slots, timestamp);
      ClearTooOldWellFormed(limits, slots, timestamp);
      ClearTooOldTimeline(limits, slots, timestamp);
      if |kept| > 0 {
        PlaceTimeline(limits, kept, item);
      }
    }
  }

  /** A packet that jumped too far ahead and is stored behind a front it does not follow: it fits
      as it is, or it fits once the oldest item is gone and the next one is no better. */
  ghost predicate JumpIsStored(limits: Limits, slots: Slots, item: Item)
    requires limits.clockRate > 0 && |slots| > 0 && WellFormed(slots)
  {
    var excess := |slots| + Sub16(item.sequenceNumber, Newest(slots).sequenceNumber) - limits.maxItems;
    var next := FirstItem(slots, 1);
    && JumpTooFar(slots, item)
    && SeqHigher(item.sequenceNumber, Newest(slots).sequenceNumber)
    && excess < |slots|
    && (excess > 0 && next < |slots| ==> !Follows(limits, slots[next].timestamp, item.timestamp))
  }

  lemma StrangerBreaksTimeline(limits: Limits, base: Slots, blanks: nat, item: Item)
    requires SoundLimits(limits) && |base| > 0 && base[0] != null
    requires !Follows(limits, base[0].timestamp, item.timestamp)
    ensures !Timeline(limits, base + Blanks(blanks) + [item])
  {
    var r := base + Blanks(blanks) + [item];
    assert r[0] == base[0] && r[|r| - 1] == item;
    AgeIsMonotone(limits, 0, TimelineAt(r, |r| - 1));
  }

  lemma JumpIsAppended(limits: Limits, slots: Slots, item: Item)
    requires SoundLimits(limits) && limits.maxItems >= 1 && 0 < |slots| <= 0x8000
    requires WellFormed(slots) && Timeline(limits, slots) && JumpTooFar(slots, item)
    requires SeqHigher(item.sequenceNumber, Newest(slots).sequenceNumber)
    requires TsHigher(item.timestamp, Newest(slots).timestamp)
    ensures Timeline(limits, PlaceNewer(limits, slots, item)) <==> !JumpIsStored(limits, slots, item)
  {
    hide Timeline, MakeRoomFor, IsTooOldTimestamp;
    var step := Sub16(item.sequenceNumber, Newest(slots).sequenceNumber);
    var excess := |slots| + step - limits.maxItems;
    RoomByExcess(limits, slots, step);
    if excess <= 0 {
      StrangerBreaksTimeline(limits, slots, step - 1, item);
    } else if excess >= |slots| {
      assert PlaceNewer(limits, slots, item) == [item];
      SingletonTimeline(limits, item);
    } else {
      var next := FirstItem(slots, 1);
      DropOldestWellFormed(slots);
      SuffixTimeline(limits, slots, next);
      if Follows(limits, slots[next].timestamp, item.timestamp) {
        AppendTimeline(limits, slots[next..], step - 1, item);
      } else {
        StrangerBreaksTimeline(limits, slots[next..], step - 1, item);
      }
    }
  }

  lemma NothingCleared(limits: Limits, slots: Slots, item: Item)
    requires SoundLimits(limits) && |slots| > 0 && WellFormed(slots) && Timeline(limits, slots)
    requires JumpTooFar(slots, item)
    ensures TsHigher(item.timestamp, Newest(slots).timestamp)
    ensures ClearTooOld(limits, slots, NewestTimestamp(slots, item)) == slots
  {
    TimelineBound(limits, slots, |slots| - 1);
    hide WithinDelay, AgeTooOld, Timeline;
    assert NewestTimestamp(slots, item) == item.timestamp;
    assert FirstYoung(limits, slots, item.timestamp, 0) == 0;
  }

  /** A packet with the newest number finds its slot taken. */
  lemma SameNumberStays(limits: Limits, slots: Slots, item: Item)
    requires limits.clockRate > 0 && 0 < |slots| <= 0x8000 && WellFormed(slots)
    requires item.sequenceNumber == Newest(slots).sequenceNumber
    ensures Place(limits, slots, item) == slots
  {
  }

  lemma NeitherWay(a: Seq16, b: Seq16)
    requires !SeqHigher(a, b) && !SeqLower(a, b)
    ensures a == b
  {
  }

  /** After a jump a packet whose number is not newer replaces everything or is not stored. */
  lemma JumpInserts(limits: Limits, slots: Slots, item: Item)
    requires SoundLimits(limits) && 0 < |slots| <= 0x8000 && WellFormed(slots) && Timeline(limits, slots)
    requires JumpTooFar(slots, item)
    ensures TsHigher(item.timestamp, Newest(slots).timestamp)
    ensures var r := InsertItem(limits, slots, item);
            !SeqHigher(item.sequenceNumber, Newest(slots).sequenceNumber) ==> r == [item] || r == slots
  {
    hide ClearTooOld, Place, Timeline, NewestTimestamp, JumpTooFar, WithinDelay, SeqHigher, SeqLower, TsHigher, Sub16;
    NothingCleared(limits, slots, item);
    if !SeqLower(item.sequenceNumber, Newest(slots).sequenceNumber)
       && !SeqHigher(item.sequenceNumber, Newest(slots).sequenceNumber) {
      NeitherWay(item.sequenceNumber, Newest(slots).sequenceNumber);
      SameNumberStays(limits, slots, item);
    }
  }

  lemma JumpIsPlaced(limits: Limits, slots: Slots, item: Item)
    requires SoundLimits(limits) && 0 < |slots| <= 0x8000 && WellFormed(slots) && Timeline(limits, slots)
    requires JumpTooFar(slots, item) && SeqHigher(item.sequenceNumber, Newest(slots).sequenceNumber)
    ensures InsertItem(limits, slots, item) == PlaceNewer(limits, slots, item)
  {
    hide ClearTooOld, PlaceNewer, PlaceOlder, PlaceBetween, Timeline, NewestTimestamp, JumpTooFar, SoundLimits;
    NothingCleared(limits, slots, item);
  }

  /** Of all insertions, exactly these break the timeline. */
  lemma TimelineKeptExactly(limits: Limits, slots: Slots, item: Item)
    requires SoundLimits(limits) && limits.maxItems >= 1 && 0 < |slots| <= 0x8000
    requires WellFormed(slots) && Timeline(limits, slots)
    ensures Timeline(limits, InsertItem(limits, slots, item)) <==> !JumpIsStored(limits, slots, item)
  {
    hide InsertItem, Timeline, PlaceNewer, SoundLimits, SeqHigher, SeqLower, TsHigher, Follows;
    SingletonTimeline(limits, item);
    if !JumpTooFar(slots, item) {
      InsertKeepsTimeline(limits, slots, item);
    } else {
      JumpInserts(limits, slots, item);
      if SeqHigher(item.sequenceNumber, Newest(slots).sequenceNumber) {
        JumpIsAppended(limits, slots, item);
        JumpIsPlaced(limits, slots, item);
      }
    }
  }

  /** With one timeline, a timestamp that is not lower than it lies after every item, as far in ticks as
      the test takes it to be. */
  lemma DistanceOnTimeline(limits: Limits, slots: Slots, timestamp: Ts32, i: nat)
    requires SoundLimits(limits) && |slots| > 0 && WellFormed(slots) && Timeline(limits, slots)
    requires !TsHigher(slots[0].timestamp, timestamp) && !TsLower(timestamp, Newest(slots).timestamp)
    requires i < |slots| && slots[i] != null
    ensures IsTooOldTimestamp(limits, slots[i].timestamp, timestamp)
            <==> !WithinDelay(limits, Sub32(timestamp, slots[i].timestamp))
  {
    hide AgeTooOld, WithinDelay;
    TimelineBound(limits, slots, i);
    AgeIsMonotone(limits, 0, Sub32(timestamp, slots[i].timestamp));
    assert Sub32(timestamp, slots[0].timestamp)
           == TimelineAt(slots, |slots| - 1) + Sub32(timestamp, Newest(slots).timestamp);
  }

  /** What clearing removes: with one timeline, exactly the items further away in ticks than the delay. */
  lemma ClearRemovesExactlyTheTooOld(limits: Limits, slots: Slots, timestamp: Ts32, i: nat)
    requires SoundLimits(limits) && |slots| > 0 && WellFormed(slots) && Timeline(limits, slots)
    requires !TsHigher(slots[0].timestamp, timestamp) && !TsLower(timestamp, Newest(slots).timestamp)
    requires i < |slots| && slots[i] != null
    ensures i < |slots| - |ClearTooOld(limits, slots, timestamp)|
            <==> !WithinDelay(limits, Sub32(timestamp, slots[i].timestamp))
  {
    hide AgeTooOld, WithinDelay;
    DistanceOnTimeline(limits, slots, timestamp, i);
    var k := FirstYoung(limits, slots, timestamp, 0);
    if k <= i {
      ClearTooOldTimeline(limits, slots, timestamp);
      var kept := ClearTooOld(limits, slots, timestamp);
      ClearTooOldWellFormed(limits, slots, timestamp);
      assert kept[i - k] == slots[i];
      FollowsLaterItem(limits, kept, i - k, timestamp);
    }
  }

  // ---------------------------------------------------------------- size

  /** `RemoveOldest(numItems)` removes one item and the blanks after it. A newer packet that needs
      more room than that, yet less than the whole buffer, makes the buffer outgrow its limit. */
  predicate OutgrowsLimit(limits: Limits, slots: Slots, item: Item)
    requires limits.clockRate > 0 && WellFormed(slots)
  {
    && |slots| > 0
    && !TimestampRestart(slots, item)
    && var kept := ClearTooOld(limits, slots, NewestTimestamp(slots, item));
       && |kept| > 0
       && SeqHigher(item.sequenceNumber, Newest(slots).sequenceNumber)
       && !TsLower(item.timestamp, Newest(slots).timestamp)
       && var excess := |kept| + Sub16(item.sequenceNumber, Newest(slots).sequenceNumber) - limits.maxItems;
          FirstItem(kept, 1) < excess < |kept|
  }

  lemma PlaceNewerSize(limits: Limits, slots: Slots, item: Item)
    requires |slots| > 0 && WellFormed(slots) && |slots| <= limits.maxItems
    requires SeqHigher(item.sequenceNumber, Newest(slots).sequenceNumber)
    requires !TsLower(item.timestamp, Newest(slots).timestamp)
    ensures var excess := |slots| + Sub16(item.sequenceNumber, Newest(slots).sequenceNumber) - limits.maxItems;
            |PlaceNewer(limits, slots, item)| > limits.maxItems <==> FirstItem(slots, 1) < excess < |slots|
  {
    var step := Sub16(item.sequenceNumber, Newest(slots).sequenceNumber);
    var room := MakeRoomFor(limits, slots, step - 1);
    var excess := |slots| + step - limits.maxItems;
    if excess > 0 {
      assert Wrap16(|slots| + (step - 1) + 1 - limits.maxItems) == excess;
      assert room == if excess > |slots| - 1 then Room([], 0) else Room(DropOldest(slots), step - 1);
    } else {
      assert room == Room(slots, step - 1);
    }
    assert |PlaceNewer(limits, slots, item)| == |room.slots| + room.blanks + 1;
  }

  /** The size limit survives exactly the insertions that do not outgrow it. */
  lemma SizeLimitKeptExactly(limits: Limits, slots: Slots, item: Item)
    requires limits.clockRate > 0 && WellFormed(slots) && limits.maxItems >= 1
    requires |slots| <= limits.maxItems
    ensures |InsertItem(limits, slots, item)| <= limits.maxItems <==> !OutgrowsLimit(limits, slots, item)
  {
    if |slots| > 0 && !TimestampRestart(slots, item) {
      var timestamp := NewestTimestamp(slots, item);
      var kept := ClearTooOld(limits, slots, timestamp);
      ClearTooOldWellFormed(limits, slots, timestamp);
      if |kept| > 0 {
        assert Newest(kept) == Newest(slots);
        if SeqHigher(item.sequenceNumber, Newest(kept).sequenceNumber) {
          if !TsLower(item.timestamp, Newest(kept).timestamp) {
            PlaceNewerSize(limits, kept, item);
          }
        } else if SeqLower(item.sequenceNumber, kept[0].sequenceNumber) {
        } else {
          BetweenIsInRange(kept, item.sequenceNumber);
        }
      }
    }
  }

  /** A sender that numbers its packets consecutively never outgrows the limit. */
  lemma ConsecutiveNumbersFit(limits: Limits, slots: Slots, item: Item)
    requires limits.clockRate > 0 && WellFormed(slots) && limits.maxItems >= 1
    requires 0 < |slots| <= limits.maxItems
    requires Sub16(item.sequenceNumber, Newest(slots).sequenceNumber) == 1
    ensures |InsertItem(limits, slots, item)| <= limits.maxItems
  {
    SizeLimitKeptExactly(limits, slots, item);
    var kept := ClearTooOld(limits, slots, NewestTimestamp(slots, item));
    assert |kept| > 0 ==> |kept| + 1 - limits.maxItems <= FirstItem(kept, 1);
  }

  /** Three packets in a buffer for three, then one that skips a number. */
  lemma LimitOutgrown(a: Item, b: Item, c: Item, d: Item)
    requires a.sequenceNumber == 0 && b.sequenceNumber == 1 && c.sequenceNumber == 2
    requires d.sequenceNumber == 4
    requires a.timestamp == b.timestamp == c.timestamp == d.timestamp == 0
    ensures var limits := Limits(3, 1000, 90000);
            WellFormed([a, b, c]) && |InsertItem(limits, [a, b, c], d)| == 4
  {
    var limits := Limits(3, 1000, 90000);
    var slots: Slots := [a, b, c];
    AgeOfZero(limits);
    assert ClearTooOld(limits, slots, 0) == slots;
    assert DropOldest(slots) == [b, c];
    assert MakeRoomFor(limits, slots, 1) == Room([b, c], 1);
  }
}

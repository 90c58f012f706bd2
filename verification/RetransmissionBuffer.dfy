/** The sender's retransmission buffer: a deque of item pointers with null holes, addressed by
    the distance of a sequence number from the one at the front. */
module RetransmissionBuffer {
  import opened SeqArithmetic

  /** A packet: the header fields the buffer looks at, and the rest of it. */
  datatype RtpPacket = RtpPacket(ssrc: Ts32, sequenceNumber: Seq16, timestamp: Ts32, payload: seq<bv8>)

  /** A stored packet. What identifies it is fixed when it is created; the sender updates only
      the two resend fields. */
  class Item {
    const rtpPacket: RtpPacket
    const ssrc: Ts32
    const sequenceNumber: Seq16
    const timestamp: Ts32
    var resentAtMs: nat
    var sentTimes: nat

    constructor (rtpPacket: RtpPacket, ssrc: Ts32, sequenceNumber: Seq16, timestamp: Ts32,
                 resentAtMs: nat, sentTimes: nat)
      ensures this.rtpPacket == rtpPacket && this.ssrc == ssrc
      ensures this.sequenceNumber == sequenceNumber && this.timestamp == timestamp
      ensures this.resentAtMs == resentAtMs && this.sentTimes == sentTimes
    {
      this.rtpPacket := rtpPacket;
      this.ssrc := ssrc;
      this.sequenceNumber := sequenceNumber;
      this.timestamp := timestamp;
      this.resentAtMs := resentAtMs;
      this.sentTimes := sentTimes;
    }
  }

  type Slots = seq<Item?>

  datatype Limits = Limits(maxItems: Seq16, maxDelayMs: Ts32, clockRate: Ts32)

  // ---------------------------------------------------------------- invariants

  /** Front and back hold items, and slot i holds the item numbered i past the front, or none. */
  ghost predicate WellFormed(slots: Slots) {
    |slots| > 0 ==>
      && slots[0] != null
      && slots[|slots| - 1] != null
      && forall i | 0 <= i < |slots| && slots[i] != null ::
           slots[i].sequenceNumber == Wrap16(slots[0].sequenceNumber + i)
  }

  function Newest(slots: Slots): Item
    requires |slots| > 0 && slots[|slots| - 1] != null
  {
    slots[|slots| - 1]
  }

  /** Integer division, by repeated subtraction so that proofs stay linear. */
  function Quotient(a: nat, b: nat): nat
    requires b > 0
  {
    if a < b then 0 else 1 + Quotient(a - b, b)
  }

  lemma ProductIsLarge(b: int, k: int)
    requires b > 0
    ensures k >= 1 ==> k * b >= b
    ensures k <= -1 ==> k * b <= -b
  {
  }

  lemma DivisionIsUnique(a: int, b: int, q: int, r: int)
    requires b > 0 && a == q * b + r && 0 <= r < b
    ensures a / b == q
  {
    var k := a / b - q;
    assert k * b == (a / b) * b - q * b;
    assert k * b == r - a % b;
    ProductIsLarge(b, k);
  }

  lemma {:induction false} QuotientIsDivision(a: nat, b: nat)
    requires b > 0
    ensures Quotient(a, b) == a / b
  {
    if a < b {
      DivisionIsUnique(a, b, 0, a);
    } else {
      QuotientIsDivision(a - b, b);
      var q := (a - b) / b;
      assert (q + 1) * b == q * b + b;
      DivisionIsUnique(a, b, q + 1, (a - b) % b);
    }
  }

  /** An age in timestamp ticks that `IsTooOldTimestamp` rejects, including its truncation of the
      quotient to 32 bits. */
  predicate AgeTooOld(limits: Limits, age: nat)
    requires limits.clockRate > 0
  {
    Quotient(age * 1000, limits.clockRate) % TS_MOD > limits.maxDelayMs
  }

  lemma {:induction false} QuotientBounds(a: nat, b: nat)
    requires b > 0
    ensures Quotient(a, b) * b <= a < (Quotient(a, b) + 1) * b
  {
    if a >= b {
      QuotientBounds(a - b, b);
      var q := Quotient(a - b, b);
      assert (q + 1) * b == q * b + b && (q + 2) * b == q * b + 2 * b;
    }
  }

  lemma ProductIsMonotone(a: nat, b: nat, c: nat)
    requires a <= b
    ensures a * c <= b * c
  {
  }

  /** So many ticks have lasted less than a millisecond more than the longest delay. */
  ghost predicate WithinDelay(limits: Limits, ticks: nat) {
    ticks * 1000 < (limits.maxDelayMs + 1) * limits.clockRate
  }

  /** With a clock of at least 1 kHz, and so no truncation, the test is exactly that of the clock. */
  lemma AgeInTicks(limits: Limits, age: Ts32)
    requires limits.clockRate >= 1000
    ensures AgeTooOld(limits, age) <==> age * 1000 >= (limits.maxDelayMs + 1) * limits.clockRate
    ensures AgeTooOld(limits, age) <==> !WithinDelay(limits, age)
  {
    var q, rate, longest: nat := Quotient(age * 1000, limits.clockRate), limits.clockRate, limits.maxDelayMs;
    QuotientBounds(age * 1000, rate);
    ProductIsMonotone(1000, rate, q);
    assert q <= age;
    if q > longest {
      ProductIsMonotone(longest + 1, q, rate);
    } else {
      ProductIsMonotone(q + 1, longest + 1, rate);
    }
  }

  /** `IsTooOldTimestamp`. */
  predicate IsTooOldTimestamp(limits: Limits, timestamp: Ts32, newestTimestamp: Ts32)
    requires limits.clockRate > 0
  {
    !TsHigher(timestamp, newestTimestamp) && AgeTooOld(limits, Sub32(newestTimestamp, timestamp))
  }

  /** The configurations the SDK uses: a clock of at least 1 kHz, and a window that ends before
      half of the timestamp circle. */
  ghost predicate SoundLimits(limits: Limits) {
    limits.clockRate >= 1000 && !WithinDelay(limits, 0x8000_0000)
  }

  /** Position of a stored item on the unwrapped timeline that starts at the front item. */
  ghost function TimelineAt(slots: Slots, i: nat): Ts32
    requires i < |slots| && slots[0] != null && slots[i] != null
  {
    Sub32(slots[i].timestamp, slots[0].timestamp)
  }

  /** In index order the stored timestamps unwrap to one nondecreasing timeline, and the back is
      within the delay of the front. */
  ghost predicate Timeline(limits: Limits, slots: Slots)
  {
    |slots| > 0 ==>
      && slots[0] != null
      && slots[|slots| - 1] != null
      && WithinDelay(limits, TimelineAt(slots, |slots| - 1))
      && forall i, j | 0 <= i < j < |slots| && slots[i] != null && slots[j] != null ::
           TimelineAt(slots, i) <= TimelineAt(slots, j)
  }

  // ---------------------------------------------------------------- reading

  /** `Get`. */
  function GetSlot(slots: Slots, number: Seq16): Item?
    requires |slots| > 0 ==> slots[0] != null
  {
    if |slots| == 0 then null
    else if SeqLower(number, slots[0].sequenceNumber) then null
    else
      var idx := Sub16(number, slots[0].sequenceNumber);
      if idx > |slots| - 1 then null else slots[idx]
  }

  // ---------------------------------------------------------------- removing

  /** Index of the first item from k on, or the size of the buffer. */
  function FirstItem(slots: Slots, k: nat): (j: nat)
    requires k <= |slots|
    ensures k <= j <= |slots| && (j < |slots| ==> slots[j] != null)
    ensures forall i | k <= i < j :: slots[i] == null
    decreases |slots| - k
  {
    if k < |slots| && slots[k] == null then FirstItem(slots, k + 1) else k
  }

  /** `RemoveOldest()`: the front item and the blanks after it. */
  function DropOldest(slots: Slots): Slots
    requires |slots| > 0
  {
    slots[FirstItem(slots, 1)..]
  }

  /** `RemoveOldest(numItems)`: whatever the count, one item at most. */
  function DropOldestItems(slots: Slots, numItems: nat): (r: Slots)
    requires |slots| > 0 && numItems <= |slots|
  {
    if |slots| > |slots| - numItems then DropOldest(slots) else slots
  }

  /** Every suffix that starts with an item is well formed. */
  lemma SuffixWellFormed(slots: Slots, k: nat)
    requires WellFormed(slots) && k < |slots| && slots[k] != null
    ensures WellFormed(slots[k..]) && Newest(slots[k..]) == Newest(slots)
  {
    var r := slots[k..];
    assert r[0] == slots[k] && r[|r| - 1] == slots[|slots| - 1];
    forall i | 0 <= i < |r| && r[i] != null
      ensures r[i].sequenceNumber == Wrap16(r[0].sequenceNumber + i)
    {
      assert r[i] == slots[k + i];
      WrapAdd(slots[0].sequenceNumber + k, i);
    }
  }

  lemma DropOldestWellFormed(slots: Slots)
    requires WellFormed(slots) && |slots| > 0
    ensures WellFormed(DropOldest(slots)) && |DropOldest(slots)| < |slots|
    ensures |slots| > 1 ==> |DropOldest(slots)| > 0 && Newest(DropOldest(slots)) == Newest(slots)
  {
    var k := FirstItem(slots, 1);
    if k < |slots| {
      SuffixWellFormed(slots, k);
    }
  }

  lemma {:induction false} FirstItemOfSuffix(slots: Slots, k: nat, i: nat)
    requires k + i <= |slots|
    ensures FirstItem(slots[k..], i) + k == FirstItem(slots, k + i)
    decreases |slots| - k - i
  {
    if k + i < |slots| && slots[k + i] == null {
      FirstItemOfSuffix(slots, k, i + 1);
    }
  }

  lemma DropOldestOfSuffix(slots: Slots, k: nat)
    requires k < |slots|
    ensures DropOldest(slots[k..]) == slots[FirstItem(slots, k + 1)..]
  {
    FirstItemOfSuffix(slots, k, 1);
  }

  /** Index of the first item from k on that is not too old, or the size of the buffer. */
  function FirstYoung(limits: Limits, slots: Slots, newestTimestamp: Ts32, k: nat): (j: nat)
    requires limits.clockRate > 0
    requires k <= |slots| && (k < |slots| ==> slots[k] != null)
    ensures k <= j <= |slots|
    ensures j < |slots| ==>
      slots[j] != null && !IsTooOldTimestamp(limits, slots[j].timestamp, newestTimestamp)
    ensures forall i | k <= i < j && slots[i] != null ::
      IsTooOldTimestamp(limits, slots[i].timestamp, newestTimestamp)
    decreases |slots| - k
  {
    if k < |slots| && IsTooOldTimestamp(limits, slots[k].timestamp, newestTimestamp)
    then FirstYoung(limits, slots, newestTimestamp, FirstItem(slots, k + 1))
    else k
  }

  /** `ClearTooOldByTimestamp`. */
  function ClearTooOld(limits: Limits, slots: Slots, newestTimestamp: Ts32): Slots
    requires limits.clockRate > 0 && WellFormed(slots)
  {
    slots[FirstYoung(limits, slots, newestTimestamp, 0)..]
  }

  lemma ClearTooOldWellFormed(limits: Limits, slots: Slots, newestTimestamp: Ts32)
    requires limits.clockRate > 0 && WellFormed(slots)
    ensures var r := ClearTooOld(limits, slots, newestTimestamp);
            WellFormed(r) && (|r| > 0 ==> Newest(r) == Newest(slots))
  {
    var k := FirstYoung(limits, slots, newestTimestamp, 0);
    if k < |slots| {
      SuffixWellFormed(slots, k);
    }
  }

  // ---------------------------------------------------------------- inserting

  function Blanks(n: nat): (r: Slots)
    ensures |r| == n && forall i | 0 <= i < n :: r[i] == null
  {
    seq(n, _ => null)
  }

  /** What is left in front of a newer packet, and the blanks to put between the two. */
  datatype Room = Room(slots: Slots, blanks: nat)

  function MakeRoomFor(limits: Limits, slots: Slots, blanks: Seq16): Room
    requires |slots| > 0
  {
    if |slots| + blanks + 1 > limits.maxItems then
      var numItemsToRemove := Wrap16(|slots| + blanks + 1 - limits.maxItems);
      if numItemsToRemove > |slots| - 1 then Room([], 0)
      else Room(DropOldestItems(slots, numItemsToRemove), blanks)
    else Room(slots, blanks)
  }

  /** Branch 4: the packet is newer than the newest one stored. */
  function PlaceNewer(limits: Limits, slots: Slots, item: Item): Slots
    requires |slots| > 0 && WellFormed(slots)
    requires SeqHigher(item.sequenceNumber, Newest(slots).sequenceNumber)
  {
    if TsLower(item.timestamp, Newest(slots).timestamp) then slots
    else
      var room := MakeRoomFor(limits, slots, Sub16(item.sequenceNumber, Newest(slots).sequenceNumber) - 1);
      room.slots + Blanks(room.blanks) + [item]
  }

  /** Branch 5: the packet is older than the oldest one stored. */
  function PlaceOlder(limits: Limits, slots: Slots, item: Item): Slots
    requires limits.clockRate > 0 && |slots| > 0 && WellFormed(slots)
    requires SeqLower(item.sequenceNumber, slots[0].sequenceNumber)
  {
    if IsTooOldTimestamp(limits, item.timestamp, Newest(slots).timestamp) then slots
    else if TsHigher(item.timestamp, slots[0].timestamp) then slots
    else
      var blanks := Sub16(slots[0].sequenceNumber, item.sequenceNumber) - 1;
      if |slots| + blanks + 1 > limits.maxItems then slots
      else [item] + Blanks(blanks) + slots
  }

  /** The nearest stored item below index n does not carry a higher raw timestamp. */
  predicate OlderFits(slots: Slots, n: nat, timestamp: Ts32)
    requires n <= |slots|
  {
    n > 0 ==> if slots[n - 1] == null then OlderFits(slots, n - 1, timestamp)
              else timestamp >= slots[n - 1].timestamp
  }

  /** The nearest stored item from index n on does not carry a lower raw timestamp. */
  predicate NewerFits(slots: Slots, n: nat, timestamp: Ts32)
    requires n <= |slots|
    decreases |slots| - n
  {
    n < |slots| ==> if slots[n] == null then NewerFits(slots, n + 1, timestamp)
                    else timestamp <= slots[n].timestamp
  }

  /** Whatever the size of the buffer, "not newer than the newest, not older than the oldest"
      always addresses a slot of it. */
  lemma BetweenIsInRange(slots: Slots, number: Seq16)
    requires |slots| > 0 && WellFormed(slots)
    requires !SeqHigher(number, Newest(slots).sequenceNumber)
    requires !SeqLower(number, slots[0].sequenceNumber)
    ensures Sub16(number, slots[0].sequenceNumber) < |slots|
  {
    var o, n := slots[0].sequenceNumber, Newest(slots).sequenceNumber;
    assert n == Wrap16(o + |slots| - 1);
    if |slots| <= 0x1_0000 {
      assert Sub16(n, o) == |slots| - 1;
    }
  }

  /** Branch 6: neither newer than the newest nor older than the oldest. */
  function PlaceBetween(slots: Slots, item: Item): Slots
    requires |slots| > 0 && WellFormed(slots)
    requires !SeqHigher(item.sequenceNumber, Newest(slots).sequenceNumber)
    requires !SeqLower(item.sequenceNumber, slots[0].sequenceNumber)
  {
    var idx := Sub16(item.sequenceNumber, slots[0].sequenceNumber);
    BetweenIsInRange(slots, item.sequenceNumber);
    if GetSlot(slots, item.sequenceNumber) != null then slots
    else if OlderFits(slots, idx, item.timestamp) && NewerFits(slots, idx + 1, item.timestamp)
    then slots[idx := item]
    else slots
  }

  function Place(limits: Limits, slots: Slots, item: Item): Slots
    requires limits.clockRate > 0 && |slots| > 0 && WellFormed(slots)
  {
    if SeqHigher(item.sequenceNumber, Newest(slots).sequenceNumber) then PlaceNewer(limits, slots, item)
    else if SeqLower(item.sequenceNumber, slots[0].sequenceNumber) then PlaceOlder(limits, slots, item)
    else PlaceBetween(slots, item)
  }

  /** The sender restarted its timestamps: an older number with a newer time. */
  predicate TimestampRestart(slots: Slots, item: Item)
    requires |slots| > 0 && WellFormed(slots)
  {
    && SeqLower(item.sequenceNumber, Newest(slots).sequenceNumber)
    && TsHigher(item.timestamp, Newest(slots).timestamp)
  }

  function NewestTimestamp(slots: Slots, item: Item): Ts32
    requires |slots| > 0 && WellFormed(slots)
  {
    if TsHigher(item.timestamp, Newest(slots).timestamp) then item.timestamp else Newest(slots).timestamp
  }

  /** `Insert`, all six branches. */
  function InsertItem(limits: Limits, slots: Slots, item: Item): Slots
    requires limits.clockRate > 0 && WellFormed(slots)
  {
    if |slots| == 0 then [item]
    else if TimestampRestart(slots, item) then [item]
    else
      var kept := ClearTooOld(limits, slots, NewestTimestamp(slots, item));
      ClearTooOldWellFormed(limits, slots, NewestTimestamp(slots, item));
      if |kept| == 0 then [item] else Place(limits, kept, item)
  }

  // ---------------------------------------------------------------- the class

  class RtpRetransmissionBuffer {
    var buffer: Slots
    const maxItems: Seq16
    const maxRetransmissionDelayMs: Ts32
    const clockRate: Ts32

    function LimitsOf(): Limits { Limits(maxItems, maxRetransmissionDelayMs, clockRate) }

    ghost predicate Valid()
      reads this
    {
      clockRate > 0 && WellFormed(buffer)
    }

    constructor (maxItems: Seq16, maxRetransmissionDelayMs: Ts32, clockRate: Ts32)
      requires clockRate > 0
      ensures Valid() && buffer == []
      ensures LimitsOf() == Limits(maxItems, maxRetransmissionDelayMs, clockRate)
    {
      this.maxItems := maxItems;
      this.maxRetransmissionDelayMs := maxRetransmissionDelayMs;
      this.clockRate := clockRate;
      buffer := [];
    }

    method Get(number: Seq16) returns (item: Item?)
      requires Valid()
      ensures item == GetSlot(buffer, number)
    {
      if |buffer| == 0 {
        return null;
      }
      var oldestItem := buffer[0];
      if SeqLower(number, oldestItem.sequenceNumber) {
        return null;
      }
      var idx := Sub16(number, oldestItem.sequenceNumber);
      if idx > |buffer| - 1 {
        return null;
      }
      return buffer[idx];
    }

    method Clear()
      modifies this
      ensures buffer == []
    {
      buffer := [];
    }

    method RemoveOldest()
      requires Valid()
      modifies this
      ensures Valid()
      ensures buffer == if |old(buffer)| == 0 then [] else DropOldest(old(buffer))
    {
      if |buffer| == 0 {
        return;
      }
      DropOldestWellFormed(buffer);
      ghost var k := 1;
      buffer := buffer[1..];
      while |buffer| > 0 && buffer[0] == null
        invariant 1 <= k <= |old(buffer)| && buffer == old(buffer)[k..]
        invariant FirstItem(old(buffer), 1) == FirstItem(old(buffer), k)
        decreases |buffer|
      {
        buffer := buffer[1..];
        k := k + 1;
      }
    }

    method RemoveOldestItems(numItems: Seq16)
      requires Valid() && 0 < |buffer| && numItems <= |buffer|
      modifies this
      ensures Valid()
      ensures buffer == DropOldestItems(old(buffer), numItems)
    {
      var intendedBufferSize := |buffer| - numItems;
      if |buffer| > intendedBufferSize {
        RemoveOldest();
      }
    }

    method ClearTooOldByTimestamp(newestTimestamp: Ts32) returns (itemsRemoved: bool)
      requires Valid()
      modifies this
      ensures Valid()
      ensures buffer == ClearTooOld(LimitsOf(), old(buffer), newestTimestamp)
      ensures itemsRemoved <==> |buffer| < |old(buffer)|
    {
      itemsRemoved := false;
      ghost var k: nat := 0;
      while |buffer| > 0
        invariant Valid()
        invariant k <= |old(buffer)| && buffer == old(buffer)[k..]
        invariant k < |old(buffer)| ==> old(buffer)[k] != null
        invariant FirstYoung(LimitsOf(), old(buffer), newestTimestamp, 0)
               == FirstYoung(LimitsOf(), old(buffer), newestTimestamp, k)
        invariant itemsRemoved <==> k > 0
        decreases |buffer|
      {
        if IsTooOldTimestamp(LimitsOf(), buffer[0].timestamp, newestTimestamp) {
          DropOldestOfSuffix(old(buffer), k);
          k := FirstItem(old(buffer), k + 1);
          RemoveOldest();
          itemsRemoved := true;
        } else {
          break;
        }
      }
    }

    method PushBlanks(front: bool, numBlankSlots: nat)
      modifies this
      ensures buffer == if front then Blanks(numBlankSlots) + old(buffer)
                                 else old(buffer) + Blanks(numBlankSlots)
    {
      for i := 0 to numBlankSlots
        invariant buffer == if front then Blanks(i) + old(buffer) else old(buffer) + Blanks(i)
      {
        assert [null] + Blanks(i) == Blanks(i + 1) == Blanks(i) + [null];
        if front {
          assert [null] + (Blanks(i) + old(buffer)) == Blanks(i + 1) + old(buffer);
          buffer := [null] + buffer;
        } else {
          assert (old(buffer) + Blanks(i)) + [null] == old(buffer) + Blanks(i + 1);
          buffer := buffer + [null];
        }
      }
      assert old(buffer) + [] == old(buffer) && [] + old(buffer) == old(buffer);
    }

    /** Stores the packet in a fresh item, unless one of the branches discards it. */
    method Insert(rtpPacket: RtpPacket) returns (ghost item: Item)
      requires Valid()
      modifies this
      ensures fresh(item) && item.rtpPacket == rtpPacket && item.ssrc == rtpPacket.ssrc
      ensures item.sequenceNumber == rtpPacket.sequenceNumber && item.timestamp == rtpPacket.timestamp
      ensures item.resentAtMs == 0 && item.sentTimes == 0
      ensures buffer == InsertItem(LimitsOf(), old(buffer), item)
    {
      var ssrc, number, timestamp := rtpPacket.ssrc, rtpPacket.sequenceNumber, rtpPacket.timestamp;
      var newItem := new Item(rtpPacket, ssrc, number, timestamp, 0, 0);
      item := newItem;

      // 1. Empty buffer.
      if |buffer| == 0 {
        buffer := buffer + [newItem];
        return;
      }

      // 2. Lower number but higher timestamp: the sender reset its clock.
      var newestItem := buffer[|buffer| - 1];
      if SeqLower(number, newestItem.sequenceNumber) && TsHigher(timestamp, newestItem.timestamp) {
        Clear();
        buffer := buffer + [newItem];
        return;
      }

      // 3. Forget what the window has passed.
      var newestTimestamp :=
        if TsHigher(timestamp, newestItem.timestamp) then timestamp else newestItem.timestamp;
      var removed := ClearTooOldByTimestamp(newestTimestamp);
      if removed {
        if |buffer| == 0 {
          buffer := buffer + [newItem];
          return;
        }
        newestItem := buffer[|buffer| - 1];
      }
      InsertAmong(newItem);
    }

    /** Branches 4, 5 and 6. */
    method InsertAmong(item: Item)
      requires Valid() && |buffer| > 0
      modifies this
      ensures buffer == Place(LimitsOf(), old(buffer), item)
    {
      if SeqHigher(item.sequenceNumber, buffer[|buffer| - 1].sequenceNumber) {
        InsertNewer(item);
      } else if SeqLower(item.sequenceNumber, buffer[0].sequenceNumber) {
        InsertOlder(item);
      } else {
        InsertBetween(item);
      }
    }

    method MakeRoom(numBlankSlots: Seq16) returns (blanks: nat)
      requires Valid() && |buffer| > 0
      modifies this
      ensures MakeRoomFor(LimitsOf(), old(buffer), numBlankSlots) == Room(buffer, blanks)
    {
      blanks := numBlankSlots;
      if |buffer| + numBlankSlots + 1 > maxItems {
        var numItemsToRemove := Wrap16(|buffer| + numBlankSlots + 1 - maxItems);
        if numItemsToRemove > |buffer| - 1 {
          blanks := 0;
          Clear();
        } else {
          RemoveOldestItems(numItemsToRemove);
        }
      }
    }

    method InsertNewer(item: Item)
      requires Valid() && |buffer| > 0
      requires SeqHigher(item.sequenceNumber, Newest(buffer).sequenceNumber)
      modifies this
      ensures buffer == PlaceNewer(LimitsOf(), old(buffer), item)
    {
      var newestItem := buffer[|buffer| - 1];
      if TsLower(item.timestamp, newestItem.timestamp) {
        return;
      }
      var numBlankSlots := MakeRoom(Sub16(item.sequenceNumber, newestItem.sequenceNumber) - 1);
      PushBlanks(false, numBlankSlots);
      buffer := buffer + [item];
    }

    method InsertOlder(item: Item)
      requires Valid() && |buffer| > 0
      requires SeqLower(item.sequenceNumber, buffer[0].sequenceNumber)
      modifies this
      ensures buffer == PlaceOlder(LimitsOf(), old(buffer), item)
    {
      var oldestItem, newestItem := buffer[0], buffer[|buffer| - 1];
      if IsTooOldTimestamp(LimitsOf(), item.timestamp, newestItem.timestamp) {
        return;
      }
      if TsHigher(item.timestamp, oldestItem.timestamp) {
        return;
      }
      var numBlankSlots := Sub16(oldestItem.sequenceNumber, item.sequenceNumber) - 1;
      if |buffer| + numBlankSlots + 1 > maxItems {
        return;
      }
      PushBlanks(true, numBlankSlots);
      buffer := [item] + buffer;
      assert buffer == [item] + Blanks(numBlankSlots) + old(buffer);
    }

    method InsertBetween(item: Item)
      requires Valid() && |buffer| > 0
      requires !SeqHigher(item.sequenceNumber, Newest(buffer).sequenceNumber)
      requires !SeqLower(item.sequenceNumber, buffer[0].sequenceNumber)
      modifies this
      ensures buffer == PlaceBetween(old(buffer), item)
    {
      var timestamp := item.timestamp;
      var present := Get(item.sequenceNumber);
      if present != null {
        return;
      }
      var idx := Sub16(item.sequenceNumber, buffer[0].sequenceNumber);
      BetweenIsInRange(buffer, item.sequenceNumber);

      var idx2 := idx - 1;
      while idx2 >= 0
        invariant -1 <= idx2 < idx
        invariant OlderFits(buffer, idx, timestamp) == OlderFits(buffer, idx2 + 1, timestamp)
      {
        var olderItem := buffer[idx2];
        if olderItem != null {
          if timestamp >= olderItem.timestamp {
            break;
          } else {
            return;
          }
        }
        idx2 := idx2 - 1;
      }

      idx2 := idx + 1;
      while idx2 < |buffer|
        invariant idx + 1 <= idx2 <= |buffer|
        invariant NewerFits(buffer, idx + 1, timestamp) == NewerFits(buffer, idx2, timestamp)
      {
        var newerItem := buffer[idx2];
        if newerItem != null {
          if timestamp <= newerItem.timestamp {
            break;
          } else {
            return;
          }
        }
        idx2 := idx2 + 1;
      }
      buffer := buffer[idx := item];
    }
  }
}

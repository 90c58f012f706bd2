/** The ring of time buckets behind `RateMeter`. */
module RateCalculator {
  import opened RateMeter
  import opened Words

  datatype BufferItem = BufferItem(count: nat, time: nat)

  /** The slot so many items after another one in a ring. */
  function Slot(items: nat, from: nat, i: nat): nat
    requires from < items && i < items
    ensures Slot(items, from, i) < items
  {
    if from + i < items then from + i else from + i - items
  }

  /** The length of an item as the constructor works it out. */
  function ItemSize(windowSizeMs: nat, windowItems: nat): (r: nat)
    requires windowItems > 0
    ensures r > 0
  {
    if windowSizeMs / windowItems < 1 then 1 else windowSizeMs / windowItems
  }

  lemma ScaledFirst(total: nat, scale: real, windowSizeMs: nat)
    requires scale >= 0.0 && windowSizeMs > 0
    ensures 0.0 <= total as real * (scale / windowSizeMs as real) == total as real * scale / windowSizeMs as real
  {
    var part := scale / windowSizeMs as real;
    assert part * windowSizeMs as real == scale;
    assert total as real * part * windowSizeMs as real == total as real * scale;
  }

  /** The sum scaled to the window, to the nearest whole number. */
  function Rate(total: nat, scale: real, windowSizeMs: nat): (r: nat)
    requires scale >= 0.0 && windowSizeMs > 0
    ensures r as real - 0.5 <= total as real * scale / windowSizeMs as real < r as real + 0.5
  {
    ScaledFirst(total, scale, windowSizeMs);
    (total as real * (scale / windowSizeMs as real) + 0.5).Floor
  }

  /** The ring is long enough for its window exactly when the window has no more milliseconds than the
      ring has items, or divides evenly among them. */
  lemma RingLengthExactly(windowSizeMs: nat, windowItems: nat)
    requires windowItems > 0
    ensures windowItems * ItemSize(windowSizeMs, windowItems) >= windowSizeMs
            <==> windowSizeMs <= windowItems || windowSizeMs % windowItems == 0
    ensures windowSizeMs >= windowItems ==>
              windowItems * ItemSize(windowSizeMs, windowItems) <= windowSizeMs
                < windowItems * ItemSize(windowSizeMs, windowItems) + windowItems
    ensures windowSizeMs < windowItems ==> ItemSize(windowSizeMs, windowItems) == 1
  {
    var q, r := windowSizeMs / windowItems, windowSizeMs % windowItems;
    assert windowSizeMs == windowItems * q + r && 0 <= r < windowItems;
    if q >= 1 {
      assert windowItems * q >= windowItems;
    }
  }

  /** The ring holds these buckets from the given slot on. */
  predicate RingHolds(ring: seq<BufferItem>, from: nat, buckets: seq<Bucket>) {
    && |buckets| <= |ring| && from < |ring|
    && forall i | 0 <= i < |buckets| ::
         ring[Slot(|ring|, from, i)] == BufferItem(buckets[i].count, buckets[i].start)
  }

  lemma RingDropsOldest(ring: seq<BufferItem>, from: nat, buckets: seq<Bucket>)
    requires RingHolds(ring, from, buckets) && |buckets| > 1
    ensures ring[from] == BufferItem(buckets[0].count, buckets[0].start)
    ensures Total(buckets) == buckets[0].count + Total(buckets[1..])
    ensures var next, rest := Slot(|ring|, from, 1), ring[from := BufferItem(0, 0)];
            && RingHolds(rest, next, buckets[1..]) && rest[next].time == buckets[1].start
            && Slot(|ring|, from, |buckets| - 1) == Slot(|ring|, next, |buckets| - 2)
  {
    var next, rest := Slot(|ring|, from, 1), ring[from := BufferItem(0, 0)];
    assert Slot(|ring|, from, 0) == from;
    forall i | 0 <= i < |buckets| - 1
      ensures rest[Slot(|ring|, next, i)] == BufferItem(buckets[1..][i].count, buckets[1..][i].start)
    {
      assert Slot(|ring|, next, i) == Slot(|ring|, from, i + 1) != from;
    }
    assert rest[Slot(|ring|, next, 0)].time == buckets[1].start;
  }

  lemma RingTakesNewest(ring: seq<BufferItem>, from: nat, buckets: seq<Bucket>, last: Bucket)
    requires RingHolds(ring, from, buckets) && |buckets| < |ring|
    ensures var at := Slot(|ring|, from, |buckets|);
            RingHolds(ring[at := BufferItem(last.count, last.start)], from, buckets + [last])
  {
  }

  lemma RingUpdatesNewest(ring: seq<BufferItem>, from: nat, buckets: seq<Bucket>, last: Bucket)
    requires RingHolds(ring, from, buckets) && |buckets| > 0
    ensures var at := Slot(|ring|, from, |buckets| - 1);
            && ring[at] == BufferItem(buckets[|buckets| - 1].count, buckets[|buckets| - 1].start)
            && RingHolds(ring[at := BufferItem(last.count, last.start)], from, buckets[..|buckets| - 1] + [last])
  {
  }

  lemma CountedFits(w: Window, buckets: seq<Bucket>, size: nat, thenMs: nat, nowMs: nat, items: nat)
    requires w.itemMs > 0 && w.sizeMs <= U64_MOD && Kept(w, buckets, thenMs) && thenMs <= nowMs
    requires items > 0 && Times(items, w.itemMs) >= w.sizeMs
    ensures var counted := Counted(w, buckets, size, nowMs);
            && Kept(w, counted, nowMs) && |counted| <= items
            && counted == Stored(w, Fresh(buckets, Cutoff(w, nowMs)), size, nowMs)
  {
    CountedIsKept(w, buckets, size, thenMs, nowMs);
    BucketsFit(w, Counted(w, buckets, size, nowMs), nowMs, items);
  }

  class RateCalculator {
    const window: Window
    const buffer: array<BufferItem>
    const scale: real
    var newestItemStartTime: nat
    var newestItemIndex: int
    var oldestItemStartTime: nat
    var oldestItemIndex: int
    var totalCount: nat
    var bytes: nat
    var lastRate: nat
    var lastTime: nat

    /** The buckets that count, oldest first, and the latest time seen. */
    ghost var buckets: seq<Bucket>
    ghost var clock: nat

    /** The ring holds the buckets from the oldest index on. */
    ghost predicate Laid()
      reads this`buckets, this`totalCount, this`newestItemStartTime, this`newestItemIndex
      reads this`oldestItemStartTime, this`oldestItemIndex, buffer
    {
      && |buckets| <= buffer.Length
      && totalCount == Total(buckets)
      && if |buckets| == 0 then
           oldestItemIndex == -1 && newestItemIndex == -1 && oldestItemStartTime == 0 && newestItemStartTime == 0
         else
           && 0 <= oldestItemIndex < buffer.Length
           && newestItemIndex == Slot(buffer.Length, oldestItemIndex, |buckets| - 1)
           && oldestItemStartTime == buckets[0].start && newestItemStartTime == buckets[|buckets| - 1].start
           && RingHolds(buffer[..], oldestItemIndex, buckets)
    }

    ghost predicate Valid()
      reads this, buffer
    {
      && Laid() && Kept(window, buckets, clock)
      && window.itemMs > 0 && buffer.Length > 0 && 0 < window.sizeMs <= U64_MOD && scale >= 0.0
      && Times(buffer.Length, window.itemMs) >= window.sizeMs
      && lastTime <= clock && (lastTime == 0 ==> lastRate == 0)
      && (lastTime != 0 ==>
            && lastRate == Rate(totalCount, scale, window.sizeMs)
            && Fresh(buckets, Cutoff(window, lastTime)) == buckets)
    }

    constructor (windowSizeMs: nat, windowItems: nat, scale: real)
      requires windowItems > 0 && 0 < windowSizeMs <= U64_MOD && scale >= 0.0
      requires windowSizeMs <= windowItems || windowSizeMs % windowItems == 0
      ensures Valid() && buckets == [] && bytes == 0 && clock == 0
      ensures window == Window(windowSizeMs, ItemSize(windowSizeMs, windowItems))
      ensures this.scale == scale && fresh(buffer)
    {
      window := Window(windowSizeMs, ItemSize(windowSizeMs, windowItems));
      buffer := new BufferItem[windowItems](_ => BufferItem(0, 0));
      this.scale := scale;
      newestItemStartTime, newestItemIndex, oldestItemStartTime, oldestItemIndex := 0, -1, 0, -1;
      totalCount, bytes, lastRate, lastTime := 0, 0, 0, 0;
      buckets, clock := [], 0;
      RingLengthExactly(windowSizeMs, windowItems);
      TimesIsProduct(windowItems, ItemSize(windowSizeMs, windowItems));
    }

    method Reset()
      modifies this, buffer
      ensures Laid() && buckets == [] && lastTime == 0
      ensures clock == old(clock) && bytes == old(bytes)
    {
      forall k | 0 <= k < buffer.Length {
        buffer[k] := BufferItem(0, 0);
      }
      newestItemStartTime, newestItemIndex, oldestItemStartTime, oldestItemIndex := 0, -1, 0, -1;
      totalCount, lastRate, lastTime := 0, 0, 0;
      buckets := [];
    }

    /** Takes the oldest bucket out of the ring. */
    method RemoveOldest()
      requires Laid() && |buckets| > 1
      modifies this`totalCount, this`oldestItemIndex, this`oldestItemStartTime, this`buckets, buffer
      ensures Laid() && buckets == old(buckets)[1..]
    {
      RingDropsOldest(buffer[..], oldestItemIndex, buckets);
      hide RingHolds;
      totalCount := totalCount - buffer[oldestItemIndex].count;
      buffer[oldestItemIndex] := BufferItem(0, 0);
      oldestItemIndex := oldestItemIndex + 1;
      if oldestItemIndex >= buffer.Length {
        oldestItemIndex := 0;
      }
      buckets := buckets[1..];
      oldestItemStartTime := buffer[oldestItemIndex].time;
    }

    /** Takes out what started a window's length ago or earlier. */
    method RemoveOldData(nowMs: nat)
      requires Laid() && Kept(window, buckets, clock)
      modifies this, buffer
      ensures Laid() && buckets == Fresh(old(buckets), Cutoff(window, nowMs))
      ensures clock == old(clock) && bytes == old(bytes)
    {
      if newestItemIndex < 0 || oldestItemIndex < 0 {
        return;
      }
      ghost var before := buckets;
      var newOldestTime := Cutoff(window, nowMs);
      if newOldestTime < oldestItemStartTime {
        return;
      }
      if newOldestTime >= newestItemStartTime {
        NothingLater(buckets, newOldestTime, newestItemStartTime);
        Reset();
        return;
      }
      while newOldestTime >= oldestItemStartTime
        invariant Laid() && |buckets| > 0 && buckets[|buckets| - 1].start > newOldestTime
        invariant Fresh(buckets, newOldestTime) == Fresh(before, newOldestTime)
        invariant clock == old(clock) && bytes == old(bytes)
        decreases |buckets|
      {
        RemoveOldest();
      }
    }

    /** Puts a new bucket into the next slot of the ring. */
    method AddItem(size: nat, nowMs: nat)
      requires Laid() && |buckets| < buffer.Length
      modifies this, buffer
      ensures totalCount == old(totalCount) && buckets == old(buckets) + [Bucket(nowMs, size)]
      ensures clock == old(clock) && bytes == old(bytes)
      ensures |buckets| <= buffer.Length && 0 <= oldestItemIndex < buffer.Length
      ensures newestItemIndex == Slot(buffer.Length, oldestItemIndex, |buckets| - 1)
      ensures oldestItemStartTime == buckets[0].start && newestItemStartTime == nowMs
      ensures RingHolds(buffer[..], oldestItemIndex, buckets)
    {
      if oldestItemIndex >= 0 {
        RingTakesNewest(buffer[..], oldestItemIndex, buckets, Bucket(nowMs, size));
      }
      newestItemIndex := newestItemIndex + 1;
      newestItemStartTime := nowMs;
      if newestItemIndex >= buffer.Length {
        newestItemIndex := 0;
      }
      buffer[newestItemIndex] := BufferItem(size, nowMs);
      if oldestItemIndex < 0 {
        oldestItemIndex := newestItemIndex;
        oldestItemStartTime := nowMs;
      }
      buckets := buckets + [Bucket(nowMs, size)];
    }

    /** Adds to the newest bucket. */
    method GrowItem(size: nat)
      requires Laid() && |buckets| > 0
      modifies this`buckets, buffer
      ensures var last := old(buckets)[|old(buckets)| - 1];
              buckets == old(buckets)[..|old(buckets)| - 1] + [last.(count := last.count + size)]
      ensures Total(buckets) == Total(old(buckets)) + size
      ensures RingHolds(buffer[..], oldestItemIndex, buckets)
    {
      ghost var live, last := buckets, buckets[|buckets| - 1];
      ghost var more := last.(count := last.count + size);
      RingUpdatesNewest(buffer[..], oldestItemIndex, live, more);
      TotalAppends(live[..|live| - 1], last);
      TotalAppends(live[..|live| - 1], more);
      assert live == live[..|live| - 1] + [last];
      hide RingHolds, Total;
      buffer[newestItemIndex] := buffer[newestItemIndex].(count := buffer[newestItemIndex].count + size);
      buckets := live[..|live| - 1] + [more];
    }

    /** Stores a size in a new bucket or in the newest one. */
    method Store(size: nat, nowMs: nat)
      requires Laid() && buffer.Length > 0 && window.itemMs > 0
      requires |Stored(window, buckets, size, nowMs)| <= buffer.Length
      modifies this, buffer
      ensures Laid() && clock == old(clock) && bytes == old(bytes) && lastTime == 0 && lastRate == 0
      ensures buckets == Stored(window, old(buckets), size, nowMs)
    {
      hide Total, RingHolds;
      if newestItemIndex < 0 || nowMs - newestItemStartTime >= window.itemMs {
        TotalAppends(buckets, Bucket(nowMs, size));
        AddItem(size, nowMs);
      } else {
        GrowItem(size);
      }
      totalCount := totalCount + size;
      lastRate, lastTime := 0, 0;
    }

    /** Forgets what is old, and stores. */
    method CountIn(size: nat, nowMs: nat)
      requires Laid() && Kept(window, buckets, clock) && buffer.Length > 0 && window.itemMs > 0
      requires |Counted(window, buckets, size, nowMs)| <= buffer.Length
      modifies this, buffer
      ensures Laid() && clock == old(clock) && bytes == old(bytes) && lastTime == 0 && lastRate == 0
      ensures buckets == Counted(window, old(buckets), size, nowMs)
    {
      hide Fresh, Total, Kept, Cutoff, Stored, Laid;
      RemoveOldData(nowMs);
      Store(size, nowMs);
    }

    /** Counts a size, unless it comes from before the oldest bucket. */
    method Update(size: nat, nowMs: nat)
      requires Valid() && (nowMs < oldestItemStartTime || clock <= nowMs)
      modifies this, buffer
      ensures Valid()
      ensures if nowMs < old(oldestItemStartTime) then
                buckets == old(buckets) && bytes == old(bytes) && clock == old(clock)
              else
                && buckets == Counted(window, old(buckets), size, nowMs)
                && bytes == old(bytes) + size && clock == nowMs
    {
      if nowMs < oldestItemStartTime {
        return;
      }
      CountedFits(window, buckets, size, clock, nowMs, buffer.Length);
      hide Fresh, Total, Kept, Times, Cutoff, Counted, Stored, Laid;
      bytes := bytes + size;
      CountIn(size, nowMs);
      clock := nowMs;
    }

    /** The scaled sum; asked again at the same time, the one worked out before. Time 0, which the code
        takes for "not worked out yet", always gives 0. */
    method GetRate(nowMs: nat) returns (rate: nat)
      requires Valid() && clock <= nowMs
      modifies this, buffer
      ensures Valid() && bytes == old(bytes)
      ensures nowMs > 0 ==>
                && buckets == Fresh(old(buckets), Cutoff(window, nowMs))
                && rate == Rate(Total(buckets), scale, window.sizeMs) && clock == nowMs
      ensures nowMs == 0 ==> rate == 0 && buckets == old(buckets) && clock == 0
    {
      if nowMs == lastTime {
        clock := nowMs;
        return lastRate;
      }
      FreshIsKept(window, buckets, clock, Cutoff(window, nowMs));
      FreshTwice(buckets, Cutoff(window, nowMs), Cutoff(window, nowMs));
      RemoveOldData(nowMs);
      lastTime := nowMs;
      lastRate := Rate(totalCount, scale, window.sizeMs);
      clock := nowMs;
      return lastRate;
    }
  }
}

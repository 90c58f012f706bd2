/** A sliding-window sum kept in buckets of time: how close it is, and how many buckets it needs. */
module RateMeter {
  import opened Words

  /** What was counted from start on, for less than an item's length. */
  datatype Bucket = Bucket(start: nat, count: nat)

  /** A counted size and the time it was counted at. */
  datatype Stamp = Stamp(timeMs: nat, size: nat)

  datatype Window = Window(sizeMs: nat, itemMs: nat)

  function Total(buckets: seq<Bucket>): nat {
    if |buckets| == 0 then 0 else buckets[0].count + Total(buckets[1..])
  }

  /** The buckets that start after the given time, oldest first. */
  function Fresh(buckets: seq<Bucket>, cutoff: int): (r: seq<Bucket>)
    ensures |r| <= |buckets|
    ensures |r| > 0 ==> r[0].start > cutoff
  {
    if |buckets| == 0 || buckets[0].start > cutoff then buckets else Fresh(buckets[1..], cutoff)
  }

  /** `now - window_size` as a 64-bit unsigned number. */
  function Cutoff(w: Window, nowMs: nat): int {
    if nowMs >= w.sizeMs then nowMs - w.sizeMs else nowMs - w.sizeMs + U64_MOD
  }

  /** A size goes into a new bucket, or into the newest one if that is young enough. */
  function Stored(w: Window, live: seq<Bucket>, size: nat, nowMs: nat): (r: seq<Bucket>)
    ensures |r| > 0
  {
    var n := |live|;
    if n == 0 || nowMs - live[n - 1].start >= w.itemMs then live + [Bucket(nowMs, size)]
    else live[..n - 1] + [live[n - 1].(count := live[n - 1].count + size)]
  }

  function Counted(w: Window, buckets: seq<Bucket>, size: nat, nowMs: nat): (r: seq<Bucket>)
    ensures |r| > 0
  {
    Stored(w, Fresh(buckets, Cutoff(w, nowMs)), size, nowMs)
  }

  // ---------------------------------------------------------------- the error bound

  /** What was counted after the given time. */
  function SumAfter(stamps: seq<Stamp>, cutoff: int): nat {
    if |stamps| == 0 then 0
    else
      var last := stamps[|stamps| - 1];
      SumAfter(stamps[..|stamps| - 1], cutoff) + if last.timeMs > cutoff then last.size else 0
  }

  predicate Ordered(buckets: seq<Bucket>) {
    forall i, j | 0 <= i < j < |buckets| :: buckets[i].start < buckets[j].start
  }

  /** The buckets after a time hold no more than was counted after it, and no less than was counted
      one item's length after it. */
  predicate Close(w: Window, buckets: seq<Bucket>, stamps: seq<Stamp>, cutoff: int) {
    SumAfter(stamps, cutoff + w.itemMs - 1) <= Total(Fresh(buckets, cutoff)) <= SumAfter(stamps, cutoff)
  }

  lemma {:induction false} FreshTwice(buckets: seq<Bucket>, a: int, b: int)
    requires a <= b
    ensures Fresh(Fresh(buckets, a), b) == Fresh(buckets, b)
  {
    if |buckets| > 0 && buckets[0].start <= a {
      FreshTwice(buckets[1..], a, b);
    }
  }

  lemma {:induction false} TotalAppends(buckets: seq<Bucket>, last: Bucket)
    ensures Total(buckets + [last]) == Total(buckets) + last.count
  {
    if |buckets| == 0 {
      assert buckets + [last] == [last];
    } else {
      TotalAppends(buckets[1..], last);
      assert (buckets + [last])[1..] == buckets[1..] + [last];
    }
  }

  lemma {:induction false} FreshAppends(buckets: seq<Bucket>, last: Bucket, cutoff: int)
    requires forall k | 0 <= k < |buckets| :: buckets[k].start < last.start
    ensures Fresh(buckets + [last], cutoff)
         == if last.start > cutoff then Fresh(buckets, cutoff) + [last] else []
  {
    if |buckets| == 0 {
      assert buckets + [last] == [last];
    } else {
      assert (buckets + [last])[1..] == buckets[1..] + [last];
      FreshAppends(buckets[1..], last, cutoff);
    }
  }

  lemma SumAppends(stamps: seq<Stamp>, last: Stamp, cutoff: int)
    ensures SumAfter(stamps + [last], cutoff)
         == SumAfter(stamps, cutoff) + if last.timeMs > cutoff then last.size else 0
  {
    assert (stamps + [last])[..|stamps|] == stamps;
  }

  lemma CountingAddsTo(buckets: seq<Bucket>, last: Bucket, size: nat, cutoff: int)
    requires forall k | 0 <= k < |buckets| :: buckets[k].start < last.start
    ensures Total(Fresh(buckets + [last.(count := last.count + size)], cutoff))
         == Total(Fresh(buckets + [last], cutoff)) + if last.start > cutoff then size else 0
  {
    var more := last.(count := last.count + size);
    FreshAppends(buckets, last, cutoff);
    FreshAppends(buckets, more, cutoff);
    TotalAppends(Fresh(buckets, cutoff), last);
    TotalAppends(Fresh(buckets, cutoff), more);
  }

  lemma {:induction false} NothingLater(buckets: seq<Bucket>, cutoff: int, nowMs: nat)
    requires Ordered(buckets) && (|buckets| > 0 ==> buckets[|buckets| - 1].start <= nowMs) && nowMs <= cutoff
    ensures Fresh(buckets, cutoff) == []
  {
    if |buckets| > 0 {
      assert |buckets| > 1 ==> buckets[0].start < buckets[|buckets| - 1].start;
      assert Ordered(buckets[1..]);
      NothingLater(buckets[1..], cutoff, nowMs);
    }
  }

  lemma NewBucketAdds(buckets: seq<Bucket>, nowMs: nat, size: nat, cutoff: int)
    requires Ordered(buckets) && (|buckets| > 0 ==> buckets[|buckets| - 1].start < nowMs)
    ensures Total(Fresh(buckets + [Bucket(nowMs, size)], cutoff))
         == Total(Fresh(buckets, cutoff)) + if nowMs > cutoff then size else 0
  {
    FreshAppends(buckets, Bucket(nowMs, size), cutoff);
    if nowMs > cutoff {
      TotalAppends(Fresh(buckets, cutoff), Bucket(nowMs, size));
    } else {
      NothingLater(buckets, cutoff, nowMs);
    }
  }

  lemma {:induction false} FreshIsOrdered(buckets: seq<Bucket>, cutoff: int)
    requires Ordered(buckets)
    ensures var r := Fresh(buckets, cutoff);
            Ordered(r) && (|r| > 0 ==> |buckets| > 0 && r[|r| - 1] == buckets[|buckets| - 1])
  {
    if |buckets| > 0 && buckets[0].start <= cutoff {
      assert Ordered(buckets[1..]);
      FreshIsOrdered(buckets[1..], cutoff);
    }
  }

  /** Adding a size to a bucket that started less than an item's length ago keeps the sum close. */
  lemma CloseAfterAdding(w: Window, before: seq<Bucket>, after: seq<Bucket>, stamps: seq<Stamp>,
                         start: nat, size: nat, nowMs: nat, cutoff: int)
    requires Close(w, before, stamps, cutoff) && start <= nowMs < start + w.itemMs
    requires Total(Fresh(after, cutoff)) == Total(Fresh(before, cutoff)) + if start > cutoff then size else 0
    ensures Close(w, after, stamps + [Stamp(nowMs, size)], cutoff)
  {
    SumAppends(stamps, Stamp(nowMs, size), cutoff);
    SumAppends(stamps, Stamp(nowMs, size), cutoff + w.itemMs - 1);
  }

  /** Counting keeps the sum close, for every later time looked at. */
  lemma CountingStaysClose(w: Window, buckets: seq<Bucket>, stamps: seq<Stamp>, size: nat, nowMs: nat, cutoff: int)
    requires w.itemMs > 0 && Ordered(buckets)
    requires |buckets| > 0 ==> buckets[|buckets| - 1].start <= nowMs
    requires Cutoff(w, nowMs) <= cutoff && Close(w, buckets, stamps, cutoff)
    ensures Close(w, Counted(w, buckets, size, nowMs), stamps + [Stamp(nowMs, size)], cutoff)
  {
    var live := Fresh(buckets, Cutoff(w, nowMs));
    FreshTwice(buckets, Cutoff(w, nowMs), cutoff);
    FreshIsOrdered(buckets, Cutoff(w, nowMs));
    assert Close(w, live, stamps, cutoff);
    hide Fresh, Total, SumAfter, Cutoff, Close;
    var n := |live|;
    var after := Counted(w, buckets, size, nowMs);
    if n == 0 || nowMs - live[n - 1].start >= w.itemMs {
      NewBucketAdds(live, nowMs, size, cutoff);
      CloseAfterAdding(w, live, after, stamps, nowMs, size, nowMs, cutoff);
    } else {
      var earlier, last := live[..n - 1], live[n - 1];
      assert live == earlier + [last];
      hide Ordered;
      CountingAddsTo(earlier, last, size, cutoff);
      CloseAfterAdding(w, live, after, stamps, last.start, size, nowMs, cutoff);
    }
  }

  // ---------------------------------------------------------------- runs

  datatype Event = Update(size: nat, nowMs: nat) | GetRate(nowMs: nat)

  function Step(w: Window, buckets: seq<Bucket>, event: Event): seq<Bucket> {
    match event
    case Update(size, nowMs) => Counted(w, buckets, size, nowMs)
    case GetRate(nowMs) => Fresh(buckets, Cutoff(w, nowMs))
  }

  function Play(w: Window, events: seq<Event>): seq<Bucket> {
    if |events| == 0 then []
    else Step(w, Play(w, events[..|events| - 1]), events[|events| - 1])
  }

  function Stamps(events: seq<Event>): seq<Stamp> {
    if |events| == 0 then []
    else
      var last := events[|events| - 1];
      Stamps(events[..|events| - 1]) + if last.Update? then [Stamp(last.nowMs, last.size)] else []
  }

  /** The counted sizes that no call since then made at less than a window's length has forgotten: at such
      a call the cutoff wraps around. */
  function Surviving(w: Window, events: seq<Event>): seq<Stamp> {
    if |events| == 0 then []
    else
      var last := events[|events| - 1];
      (if last.nowMs < w.sizeMs then [] else Surviving(w, events[..|events| - 1]))
      + if last.Update? then [Stamp(last.nowMs, last.size)] else []
  }

  function LastTime(events: seq<Event>): nat {
    if |events| == 0 then 0 else events[|events| - 1].nowMs
  }

  /** The clock does not go back, from whatever time on. */
  predicate NoStepBack(events: seq<Event>) {
    forall j, k | 0 <= j < k < |events| :: events[j].nowMs <= events[k].nowMs
  }

  predicate Spaced(w: Window, buckets: seq<Bucket>) {
    forall k | 0 < k < |buckets| :: buckets[k].start - buckets[k - 1].start >= w.itemMs
  }

  /** What a run keeps: buckets an item's length apart, within a window's length, none in the future. */
  predicate Kept(w: Window, buckets: seq<Bucket>, nowMs: nat) {
    && Spaced(w, buckets) && Ordered(buckets)
    && (|buckets| > 0 ==> buckets[|buckets| - 1].start <= nowMs)
    && (|buckets| > 1 ==> buckets[|buckets| - 1].start - buckets[0].start < w.sizeMs)
  }

  lemma {:induction false} FreshIsKept(w: Window, buckets: seq<Bucket>, nowMs: nat, cutoff: int)
    requires Kept(w, buckets, nowMs)
    ensures Kept(w, Fresh(buckets, cutoff), nowMs)
  {
    if |buckets| > 0 && buckets[0].start <= cutoff {
      FreshIsKept(w, buckets[1..], nowMs, cutoff);
    }
  }

  /** While the clock reads less than a window's length, the cutoff wraps around and every bucket is
      forgotten at each call. */
  lemma EarlyClockForgets(w: Window, buckets: seq<Bucket>, thenMs: nat, nowMs: nat)
    requires Kept(w, buckets, thenMs) && thenMs <= nowMs < w.sizeMs <= U64_MOD
    ensures Fresh(buckets, Cutoff(w, nowMs)) == []
  {
    NothingLater(buckets, Cutoff(w, nowMs), thenMs);
  }

  lemma NewIsKept(w: Window, live: seq<Bucket>, size: nat, nowMs: nat)
    requires w.itemMs > 0 && Kept(w, live, nowMs)
    requires |live| > 0 ==> nowMs - live[|live| - 1].start >= w.itemMs && nowMs - live[0].start < w.sizeMs
    ensures Kept(w, live + [Bucket(nowMs, size)], nowMs)
  {
  }

  lemma SameIsKept(w: Window, live: seq<Bucket>, last: Bucket, nowMs: nat)
    requires Kept(w, live, nowMs) && |live| > 0 && last.start == live[|live| - 1].start
    ensures Kept(w, live[..|live| - 1] + [last], nowMs)
  {
    assert forall k | 0 <= k < |live| :: (live[..|live| - 1] + [last])[k].start == live[k].start;
  }

  lemma CountedIsKept(w: Window, buckets: seq<Bucket>, size: nat, thenMs: nat, nowMs: nat)
    requires w.itemMs > 0 && Kept(w, buckets, thenMs) && thenMs <= nowMs && (w.sizeMs <= nowMs || w.sizeMs <= U64_MOD)
    ensures Kept(w, Counted(w, buckets, size, nowMs), nowMs)
  {
    FreshIsKept(w, buckets, thenMs, Cutoff(w, nowMs));
    var live := Fresh(buckets, Cutoff(w, nowMs));
    if nowMs < w.sizeMs {
      EarlyClockForgets(w, buckets, thenMs, nowMs);
    }
    assert Kept(w, live, nowMs);
    var n := |live|;
    assert n > 0 ==> nowMs - live[0].start < w.sizeMs;
    hide Fresh, Kept;
    if n > 0 && nowMs - live[n - 1].start < w.itemMs {
      SameIsKept(w, live, live[n - 1].(count := live[n - 1].count + size), nowMs);
    } else {
      NewIsKept(w, live, size, nowMs);
    }
  }

  ghost predicate AlwaysClose(w: Window, buckets: seq<Bucket>, stamps: seq<Stamp>, from: int) {
    forall cutoff | cutoff >= from :: Close(w, buckets, stamps, cutoff)
  }

  lemma {:induction false} BucketsAreKept(w: Window, events: seq<Event>)
    requires w.itemMs > 0 && w.sizeMs <= U64_MOD && NoStepBack(events)
    ensures Kept(w, Play(w, events), LastTime(events))
  {
    if |events| > 0 {
      var before, last := events[..|events| - 1], events[|events| - 1];
      BucketsAreKept(w, before);
      var buckets := Play(w, before);
      assert LastTime(before) <= last.nowMs;
      hide Kept, Counted, Fresh, NoStepBack, Cutoff;
      match last
      case Update(size, nowMs) =>
        CountedIsKept(w, buckets, size, LastTime(before), nowMs);
      case GetRate(nowMs) =>
        FreshIsKept(w, buckets, LastTime(before), Cutoff(w, nowMs));
    }
  }

  lemma OneStampIsClose(w: Window, size: nat, nowMs: nat, cutoff: int)
    requires w.itemMs > 0
    ensures Close(w, [Bucket(nowMs, size)], [Stamp(nowMs, size)], cutoff)
    ensures Close(w, [], [], cutoff)
  {
    assert [Stamp(nowMs, size)][..0] == [] && [Bucket(nowMs, size)][1..] == [];
  }

  lemma EarlyStepIsClose(w: Window, buckets: seq<Bucket>, thenMs: nat, event: Event, cutoff: int)
    requires w.itemMs > 0 && Kept(w, buckets, thenMs) && thenMs <= event.nowMs < w.sizeMs <= U64_MOD
    ensures Close(w, Step(w, buckets, event), if event.Update? then [Stamp(event.nowMs, event.size)] else [], cutoff)
  {
    EarlyClockForgets(w, buckets, thenMs, event.nowMs);
    hide Close, Fresh;
    match event
    case Update(size, nowMs) =>
      assert [] + [Bucket(nowMs, size)] == [Bucket(nowMs, size)];
      assert Step(w, buckets, event) == [Bucket(nowMs, size)];
      OneStampIsClose(w, size, nowMs, cutoff);
    case GetRate(nowMs) => OneStampIsClose(w, 0, nowMs, cutoff);
  }

  lemma LateStepIsClose(w: Window, buckets: seq<Bucket>, stamps: seq<Stamp>, thenMs: nat, event: Event, cutoff: int)
    requires w.itemMs > 0 && Kept(w, buckets, thenMs) && thenMs <= event.nowMs
    requires event.nowMs - w.sizeMs >= 0 && cutoff >= event.nowMs - w.sizeMs && Close(w, buckets, stamps, cutoff)
    ensures Close(w, Step(w, buckets, event),
                  stamps + if event.Update? then [Stamp(event.nowMs, event.size)] else [], cutoff)
  {
    hide Fresh, Counted, SumAfter, Total;
    match event
    case Update(size, nowMs) =>
      CountingStaysClose(w, buckets, stamps, size, nowMs, cutoff);
    case GetRate(nowMs) =>
      FreshTwice(buckets, Cutoff(w, nowMs), cutoff);
      assert stamps + [] == stamps;
  }

  /** Over every run, whenever it began, the buckets stay in order and spaced, and as close as they have to
      be to what was counted and not forgotten, for every later question. */
  lemma {:induction false} RunIsKept(w: Window, events: seq<Event>)
    requires w.itemMs > 0 && w.sizeMs <= U64_MOD && NoStepBack(events)
    ensures Kept(w, Play(w, events), LastTime(events))
    ensures AlwaysClose(w, Play(w, events), Surviving(w, events), LastTime(events) - w.sizeMs)
  {
    BucketsAreKept(w, events);
    if |events| == 0 {
      forall cutoff ensures Close(w, [], [], cutoff) {
        OneStampIsClose(w, 0, 0, cutoff);
      }
    } else {
      var before, last := events[..|events| - 1], events[|events| - 1];
      RunIsKept(w, before);
      var buckets, thenMs := Play(w, before), LastTime(before);
      assert thenMs <= last.nowMs;
      hide Kept, Close, Step;
      forall cutoff | cutoff >= last.nowMs - w.sizeMs
        ensures Close(w, Play(w, events), Surviving(w, events), cutoff)
      {
        if last.nowMs < w.sizeMs {
          EarlyStepIsClose(w, buckets, thenMs, last, cutoff);
          assert [] + [Stamp(last.nowMs, 0)] == [Stamp(last.nowMs, 0)];
        } else {
          assert Close(w, buckets, Surviving(w, before), cutoff);
          LateStepIsClose(w, buckets, Surviving(w, before), thenMs, last, cutoff);
        }
      }
    }
  }

  lemma CloseAt(w: Window, buckets: seq<Bucket>, stamps: seq<Stamp>, from: int, nowMs: nat)
    requires AlwaysClose(w, buckets, stamps, from) && nowMs - w.sizeMs >= from && nowMs >= w.sizeMs
    ensures SumAfter(stamps, nowMs - w.sizeMs + w.itemMs - 1) <= Total(Fresh(buckets, Cutoff(w, nowMs)))
              <= SumAfter(stamps, nowMs - w.sizeMs)
  {
    assert Close(w, buckets, stamps, nowMs - w.sizeMs);
  }

  /** The sum behind the rate, after any run and at any later time from one window on: between what was
      counted in the window and what was counted in the window shortened by one item's length, of what was
      not forgotten. */
  lemma SumIsClose(w: Window, events: seq<Event>, nowMs: nat)
    requires w.itemMs > 0 && NoStepBack(events) && LastTime(events) <= nowMs && w.sizeMs <= nowMs && w.sizeMs <= U64_MOD
    ensures var sum, stamps := Total(Fresh(Play(w, events), Cutoff(w, nowMs))), Surviving(w, events);
            SumAfter(stamps, nowMs - w.sizeMs + w.itemMs - 1) <= sum <= SumAfter(stamps, nowMs - w.sizeMs)
  {
    RunIsKept(w, events);
    hide Kept, AlwaysClose, SumAfter, Total, Fresh, Play, Surviving, Cutoff;
    CloseAt(w, Play(w, events), Surviving(w, events), LastTime(events) - w.sizeMs, nowMs);
  }

  /** Forgetting only takes away. */
  lemma {:induction false} SurvivingIsLess(w: Window, events: seq<Event>, cutoff: int)
    ensures SumAfter(Surviving(w, events), cutoff) <= SumAfter(Stamps(events), cutoff)
  {
    if |events| > 0 {
      var before, last := events[..|events| - 1], events[|events| - 1];
      SurvivingIsLess(w, before, cutoff);
      var kept := if last.nowMs < w.sizeMs then [] else Surviving(w, before);
      assert SumAfter(kept, cutoff) <= SumAfter(Stamps(before), cutoff);
      if last.Update? {
        var stamp := Stamp(last.nowMs, last.size);
        hide SumAfter;
        SumAppends(Stamps(before), stamp, cutoff);
        SumAppends(kept, stamp, cutoff);
      } else {
        assert kept + [] == kept && Stamps(before) + [] == Stamps(before);
      }
    }
  }

  /** Without a call at less than a window's length nothing is forgotten. */
  lemma {:induction false} AllSurvive(w: Window, events: seq<Event>)
    requires forall k | 0 <= k < |events| :: events[k].nowMs >= w.sizeMs
    ensures Surviving(w, events) == Stamps(events)
  {
    if |events| > 0 {
      AllSurvive(w, events[..|events| - 1]);
    }
  }

  /** So of everything counted the bound holds if nothing forgotten lies in the shortened window, above all if
      no call came before one window; and it fails if with what was forgotten more lies there than was counted
      in the whole window since. */
  lemma BoundOnEverything(w: Window, events: seq<Event>, nowMs: nat)
    requires w.itemMs > 0 && NoStepBack(events) && LastTime(events) <= nowMs && w.sizeMs <= nowMs && w.sizeMs <= U64_MOD
    ensures var sum, start := Total(Fresh(Play(w, events), Cutoff(w, nowMs))), nowMs - w.sizeMs;
            var shortened := start + w.itemMs - 1;
            && sum <= SumAfter(Stamps(events), start)
            && (SumAfter(Stamps(events), shortened) == SumAfter(Surviving(w, events), shortened) ==>
                  SumAfter(Stamps(events), shortened) <= sum)
            && (SumAfter(Stamps(events), shortened) > SumAfter(Surviving(w, events), start) ==>
                  SumAfter(Stamps(events), shortened) > sum)
            && ((forall k | 0 <= k < |events| :: events[k].nowMs >= w.sizeMs) ==>
                  SumAfter(Stamps(events), shortened) <= sum)
  {
    hide SumAfter, Total, Fresh, Play, Stamps, Surviving, Cutoff, NoStepBack, LastTime;
    SumIsClose(w, events, nowMs);
    SurvivingIsLess(w, events, nowMs - w.sizeMs);
    if forall k | 0 <= k < |events| :: events[k].nowMs >= w.sizeMs {
      AllSurvive(w, events);
    }
  }

  lemma OneSum(stamp: Stamp, cutoff: int)
    ensures SumAfter([stamp], cutoff) == if stamp.timeMs > cutoff then stamp.size else 0
  {
    SumAppends([], stamp, cutoff);
    assert [] + [stamp] == [stamp];
  }

  lemma TwoCounts(w: Window, first: Event, second: Event)
    requires first.Update? && second.Update? && second.nowMs < w.sizeMs
    ensures Stamps([first, second]) == [Stamp(first.nowMs, first.size), Stamp(second.nowMs, second.size)]
    ensures Surviving(w, [first, second]) == [Stamp(second.nowMs, second.size)]
  {
    assert [first, second][..1] == [first] && [first][..0] == [];
    assert Stamps([first]) == [Stamp(first.nowMs, first.size)];
  }

  /** A run that began early and is asked about late: of the two sizes the bound has to include one is gone. */
  lemma EarlyStartIsMissed()
    ensures var w, events := Window(1000, 10), [Update(1, 500), Update(1, 600)];
            && Total(Fresh(Play(w, events), Cutoff(w, 1001))) == 1
            && SumAfter(Stamps(events), 1001 - w.sizeMs + w.itemMs - 1) == 2
  {
    hide SumAfter, Stamps, Surviving, Total, Fresh, Play;
    var w, events := Window(1000, 10), [Update(1, 500), Update(1, 600)];
    TwoCounts(w, Update(1, 500), Update(1, 600));
    SumAppends([Stamp(500, 1)], Stamp(600, 1), 10);
    assert [Stamp(500, 1)] + [Stamp(600, 1)] == [Stamp(500, 1), Stamp(600, 1)];
    OneSum(Stamp(500, 1), 10);
    OneSum(Stamp(600, 1), 10);
    OneSum(Stamp(600, 1), 1);
    SumIsClose(w, events, 1001);
  }

  /** While the clock reads less than a window's length the sum is 0, and the bound holds exactly if nothing
      was counted that it has to include. */
  lemma EarlyBoundExactly(w: Window, events: seq<Event>, nowMs: nat)
    requires w.itemMs > 0 && NoStepBack(events) && nowMs < w.sizeMs <= U64_MOD
    requires LastTime(events) <= nowMs
    ensures var sum := Total(Fresh(Play(w, events), Cutoff(w, nowMs)));
            && sum == 0
            && (SumAfter(Stamps(events), nowMs - w.sizeMs + w.itemMs - 1) <= sum
                  <= SumAfter(Stamps(events), nowMs - w.sizeMs)
                <==> SumAfter(Stamps(events), nowMs - w.sizeMs + w.itemMs - 1) == 0)
  {
    BucketsAreKept(w, events);
    EarlyClockForgets(w, Play(w, events), LastTime(events), nowMs);
  }

  /** A size counted at time 5 and asked for at time 6, with a window of a second in items of 10 ms. */
  lemma EarlySizeIsMissed(size: nat)
    ensures var w, events := Window(1000, 10), [Update(size, 5)];
            && Total(Fresh(Play(w, events), Cutoff(w, 6))) == 0
            && SumAfter(Stamps(events), 6 - w.sizeMs + w.itemMs - 1) == size
  {
    var w, events := Window(1000, 10), [Update(size, 5)];
    assert events[..0] == [];
    EarlyBoundExactly(w, events, 6);
    assert Stamps(events) == [Stamp(5, size)];
    assert [Stamp(5, size)][..0] == [];
  }

  // ---------------------------------------------------------------- how many buckets there are

  function Times(k: nat, m: nat): nat {
    if k == 0 then 0 else Times(k - 1, m) + m
  }

  lemma {:induction false} TimesIsProduct(k: nat, m: nat)
    ensures Times(k, m) == k * m
  {
    if k > 0 {
      TimesIsProduct(k - 1, m);
    }
  }

  lemma {:induction false} TimesGrows(k: nat, j: nat, m: nat)
    requires k <= j
    ensures Times(k, m) <= Times(j, m)
  {
    if k < j {
      TimesGrows(k, j - 1, m);
    }
  }

  lemma {:induction false} SpanOfBuckets(w: Window, buckets: seq<Bucket>)
    requires Spaced(w, buckets) && |buckets| > 0
    ensures buckets[|buckets| - 1].start - buckets[0].start >= Times(|buckets| - 1, w.itemMs)
  {
    var n := |buckets|;
    if n > 1 {
      assert forall k | 0 < k < n - 1 :: buckets[..n - 1][k].start == buckets[k].start;
      SpanOfBuckets(w, buckets[..n - 1]);
    }
  }

  /** One update every item's length: each opens a bucket. */
  function Spread(w: Window, n: nat): seq<Event> {
    seq(n, k requires 0 <= k < n => Update(1, w.sizeMs + Times(k, w.itemMs)))
  }

  function SpreadBuckets(w: Window, n: nat): seq<Bucket> {
    seq(n, k requires 0 <= k < n => Bucket(w.sizeMs + Times(k, w.itemMs), 1))
  }

  lemma SpreadGoesOn(w: Window, n: nat)
    ensures NoStepBack(Spread(w, n))
  {
    forall j, k | 0 <= j < k < n ensures Spread(w, n)[j].nowMs <= Spread(w, n)[k].nowMs {
      TimesGrows(j, k, w.itemMs);
    }
  }

  lemma SpreadSplits(w: Window, n: nat)
    requires n > 0
    ensures var nowMs := w.sizeMs + Times(n - 1, w.itemMs);
            && |Spread(w, n)| == n && Spread(w, n)[..n - 1] == Spread(w, n - 1)
            && Spread(w, n)[n - 1] == Update(1, nowMs)
            && SpreadBuckets(w, n) == SpreadBuckets(w, n - 1) + [Bucket(nowMs, 1)]
            && (n > 1 ==> nowMs - SpreadBuckets(w, n - 1)[n - 2].start == w.itemMs)
            && |SpreadBuckets(w, n - 1)| == n - 1
  {
  }

  lemma AllLive(w: Window, n: nat, cutoff: int)
    requires cutoff < w.sizeMs
    ensures Fresh(SpreadBuckets(w, n), cutoff) == SpreadBuckets(w, n)
  {
  }

  lemma {:induction false} SpreadOpensBuckets(w: Window, n: nat)
    requires w.itemMs > 0 && w.sizeMs > 0 && (n > 0 ==> Times(n - 1, w.itemMs) < w.sizeMs)
    ensures Play(w, Spread(w, n)) == SpreadBuckets(w, n)
  {
    if n > 0 {
      if n > 1 {
        TimesGrows(n - 2, n - 1, w.itemMs);
      }
      SpreadOpensBuckets(w, n - 1);
      var nowMs := w.sizeMs + Times(n - 1, w.itemMs);
      SpreadSplits(w, n);
      AllLive(w, n - 1, Cutoff(w, nowMs));
      hide Fresh, Cutoff, SpreadBuckets, Spread;
      assert Play(w, Spread(w, n)) == Counted(w, SpreadBuckets(w, n - 1), 1, nowMs);
    }
  }

  lemma BucketsFit(w: Window, buckets: seq<Bucket>, nowMs: nat, items: nat)
    requires Kept(w, buckets, nowMs) && items > 0 && Times(items, w.itemMs) >= w.sizeMs
    ensures |buckets| <= items
  {
    if |buckets| > 0 {
      SpanOfBuckets(w, buckets);
      if |buckets| > items {
        TimesGrows(items, |buckets| - 1, w.itemMs);
      }
    }
  }

  lemma RunFits(w: Window, events: seq<Event>, items: nat)
    requires w.itemMs > 0 && w.sizeMs <= U64_MOD && NoStepBack(events)
    requires items > 0 && Times(items, w.itemMs) >= w.sizeMs
    ensures |Play(w, events)| <= items
  {
    BucketsAreKept(w, events);
    BucketsFit(w, Play(w, events), LastTime(events), items);
  }

  /** A ring of so many items never has to overwrite a bucket that still counts, in any run, exactly
      when its items together are at least as long as the window. */
  lemma RingSufficesExactly(w: Window, items: nat)
    requires w.itemMs > 0 && items > 0 && 0 < w.sizeMs <= U64_MOD
    ensures (forall events | NoStepBack(events) :: |Play(w, events)| <= items) <==> items * w.itemMs >= w.sizeMs
  {
    TimesIsProduct(items, w.itemMs);
    if items * w.itemMs >= w.sizeMs {
      forall events | NoStepBack(events) ensures |Play(w, events)| <= items {
        RunFits(w, events, items);
      }
    } else {
      SpreadGoesOn(w, items + 1);
      SpreadOpensBuckets(w, items + 1);
      assert |Play(w, Spread(w, items + 1))| == items + 1;
    }
  }
}

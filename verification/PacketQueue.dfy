/** The queue that hands packets on in the order of their extended sequence numbers. */
module PacketQueue {
  import opened SeqArithmetic

  /** A packet under its extended sequence number. */
  datatype Entry<P> = Entry(number: nat, packet: P)

  predicate Ordered<P>(entries: seq<Entry<P>>) {
    forall i, j | 0 <= i < j < |entries| :: entries[i].number < entries[j].number
  }

  predicate Has<P>(entries: seq<Entry<P>>, number: nat) {
    exists k | 0 <= k < |entries| :: entries[k].number == number
  }

  /** `IsLargeSeq`: whether a number is newer, and whether it wrapped around to be so. */
  function IsLargeSeq(small: Seq16, big: Seq16): (bool, bool) {
    if big > small then (big - small <= 32767, false)
    else (small - big > 32767, small - big > 32767)
  }

  /** `emplace` in an ordered map: nothing happens to a number that is there. */
  function Emplace<P>(entries: seq<Entry<P>>, e: Entry<P>): (r: seq<Entry<P>>) {
    if |entries| == 0 || e.number < entries[0].number then [e] + entries
    else if e.number == entries[0].number then entries
    else [entries[0]] + Emplace(entries[1..], e)
  }

  /** How many entries follow on from a number without a gap. */
  function RunLength<P>(entries: seq<Entry<P>>, next: nat): (r: nat)
    ensures r <= |entries|
    ensures forall k | 0 <= k < r :: entries[k].number == next + k
    ensures r < |entries| ==> entries[r].number != next + r
  {
    if |entries| == 0 || entries[0].number != next then 0 else 1 + RunLength(entries[1..], next + 1)
  }

  lemma HasPrepended<P>(e: Entry<P>, entries: seq<Entry<P>>)
    ensures forall n :: Has([e] + entries, n) <==> n == e.number || Has(entries, n)
  {
    forall n ensures Has([e] + entries, n) <==> n == e.number || Has(entries, n) {
      if Has(entries, n) {
        var k :| 0 <= k < |entries| && entries[k].number == n;
        assert ([e] + entries)[k + 1].number == n;
      }
      if n == e.number {
        assert ([e] + entries)[0].number == n;
      }
    }
  }

  lemma {:induction false} EmplaceKeepsOrder<P>(entries: seq<Entry<P>>, e: Entry<P>)
    requires Ordered(entries)
    ensures Ordered(Emplace(entries, e))
    ensures forall n :: Has(Emplace(entries, e), n) <==> n == e.number || Has(entries, n)
    ensures forall x | x in Emplace(entries, e) :: x == e || x in entries
  {
    var r := Emplace(entries, e);
    if |entries| == 0 || e.number < entries[0].number {
      HasPrepended(e, entries);
    } else if e.number > entries[0].number {
      assert Ordered(entries[1..]);
      EmplaceKeepsOrder(entries[1..], e);
      var tail := Emplace(entries[1..], e);
      HasPrepended(entries[0], tail);
      HasPrepended(entries[0], entries[1..]);
      assert entries == [entries[0]] + entries[1..];
      forall k | 0 <= k < |tail| ensures entries[0].number < tail[k].number {
        assert tail[k] in tail;
      }
    } else {
      assert Has(entries, e.number);
    }
  }

  /** The state of the queue; next is the extended number waited for. */
  datatype Queue<P> = Queue(entries: seq<Entry<P>>, isStart: bool, cycle: nat, maxSeq: Seq16, next: nat)

  function CycleFor<P>(q: Queue<P>, number: Seq16): nat {
    if IsLargeSeq(if q.isStart then number else q.maxSeq, number).1 then (q.cycle + 1) % TS_MOD else q.cycle
  }

  /** The extended number a packet gets. */
  function Extended<P>(q: Queue<P>, number: Seq16): nat {
    (CycleFor(q, number) * SEQ_MOD + number) % TS_MOD
  }

  function Pushed<P>(q: Queue<P>, number: Seq16, packet: P): Queue<P> {
    var large := IsLargeSeq(if q.isStart then number else q.maxSeq, number).0;
    Queue(Emplace(q.entries, Entry(Extended(q, number), packet)), false, CycleFor(q, number),
          if large || q.isStart then number else q.maxSeq, q.next)
  }

  function Popped<P>(q: Queue<P>): Queue<P> {
    var n := RunLength(q.entries, q.next);
    q.(entries := q.entries[n..], next := q.next + n)
  }

  /** In the loop of `Pop`: the packets taken from the map so far, and what is left of it. */
  ghost predicate HandedOn<P>(before: seq<Entry<P>>, next: nat, packets: seq<P>, rest: seq<Entry<P>>, waiting: nat) {
    && |packets| <= |before| && rest == before[|packets|..] && waiting == next + |packets|
    && (forall k | 0 <= k < |packets| :: Entry(next + k, packets[k]) == before[k])
    && RunLength(before, next) == |packets| + RunLength(rest, waiting)
  }

  lemma NothingHandedOn<P>(next: nat)
    ensures RunLength<P>([], next) == 0
  {
  }

  lemma HandedOnStart<P>(before: seq<Entry<P>>, next: nat)
    ensures HandedOn(before, next, [], before, next)
  {
  }

  lemma HandedOnEnd<P>(before: seq<Entry<P>>, next: nat, packets: seq<P>, rest: seq<Entry<P>>, waiting: nat)
    requires HandedOn(before, next, packets, rest, waiting) && (|rest| > 0 ==> waiting != rest[0].number)
    ensures |packets| == RunLength(before, next) && rest == before[|packets|..] && waiting == next + |packets|
    ensures forall k | 0 <= k < |packets| :: Entry(next + k, packets[k]) == before[k]
  {
  }

  lemma HandedOnOneMore<P>(before: seq<Entry<P>>, next: nat, packets: seq<P>, rest: seq<Entry<P>>, waiting: nat)
    requires HandedOn(before, next, packets, rest, waiting) && |rest| > 0 && waiting == rest[0].number
    ensures HandedOn(before, next, packets + [rest[0].packet], rest[1..], waiting + 1)
  {
    assert rest[0] == before[|packets|];
  }

  class ThreadRtpPacketQueue<P> {
    var packetMap: seq<Entry<P>>
    var isStart: bool
    var cycle: nat
    var maxSeq: Seq16
    var waitePopSeq: nat

    function State(): Queue<P>
      reads this
    {
      Queue(packetMap, isStart, cycle, maxSeq, waitePopSeq)
    }

    constructor ()
      ensures State() == Queue([], true, 0, 0, 0)
    {
      packetMap, isStart, cycle, maxSeq, waitePopSeq := [], true, 0, 0, 0;
    }

    /** Stores a packet under its extended number. */
    method Push(number: Seq16, packet: P)
      modifies this
      ensures State() == Pushed(old(State()), number, packet)
    {
      if isStart {
        maxSeq := number;
        isStart := false;
      }
      var (large, hasRouting) := IsLargeSeq(maxSeq, number);
      if large {
        maxSeq := number;
      }
      if hasRouting {
        cycle := (cycle + 1) % TS_MOD;
      }
      var largeSeq := (cycle * SEQ_MOD + number) % TS_MOD;
      packetMap := Emplace(packetMap, Entry(largeSeq, packet));
    }

    /** Delivers what follows on without a gap: exactly the packets under the next numbers, in order. */
    method Pop() returns (ok: bool, packets: seq<P>)
      modifies this`packetMap, this`waitePopSeq
      ensures ok <==> |old(packetMap)| > 0
      ensures State() == Popped(old(State()))
      ensures |packets| == waitePopSeq - old(waitePopSeq)
      ensures forall k | 0 <= k < |packets| ::
                Entry(old(waitePopSeq) + k, packets[k]) == old(packetMap)[k]
    {
      hide HandedOn, RunLength;
      ok, packets := |packetMap| > 0, [];
      if !ok {
        NothingHandedOn<P>(waitePopSeq);
        return;
      }
      ghost var before, next := packetMap, waitePopSeq;
      HandedOnStart(before, next);
      while |packetMap| > 0 && waitePopSeq == packetMap[0].number
        invariant HandedOn(before, next, packets, packetMap, waitePopSeq)
        decreases |packetMap|
      {
        HandedOnOneMore(before, next, packets, packetMap, waitePopSeq);
        packets := packets + [packetMap[0].packet];
        waitePopSeq := waitePopSeq + 1;
        packetMap := packetMap[1..];
      }
      HandedOnEnd(before, next, packets, packetMap, waitePopSeq);
    }
  }

  // ---------------------------------------------------------------- runs

  datatype Event<P> = PushEvent(number: Seq16, packet: P) | PopEvent

  function Play<P>(events: seq<Event<P>>): Queue<P> {
    if |events| == 0 then Queue([], true, 0, 0, 0)
    else
      var q, e := Play(events[..|events| - 1]), events[|events| - 1];
      if e.PushEvent? then Pushed(q, e.number, e.packet) else Popped(q)
  }

  /** The packet of event k gets an extended number that is already handed on. */
  predicate Late<P>(events: seq<Event<P>>, k: nat)
    requires k < |events|
  {
    events[k].PushEvent? && Extended(Play(events[..k]), events[k].number) < Play(events[..k]).next
  }

  predicate SomeLate<P>(events: seq<Event<P>>) {
    exists k | 0 <= k < |events| :: Late(events, k)
  }

  lemma LateBefore<P>(events: seq<Event<P>>, e: Event<P>)
    ensures SomeLate(events + [e])
            <==> SomeLate(events) || (e.PushEvent? && Extended(Play(events), e.number) < Play(events).next)
  {
    hide Play, Extended;
    var all := events + [e];
    assert forall k | 0 <= k < |events| :: all[..k] == events[..k] && all[k] == events[k];
    assert all[..|events|] == events;
    if SomeLate(events) {
      var k :| 0 <= k < |events| && Late(events, k);
      assert Late(all, k);
    }
    if SomeLate(all) {
      var k :| 0 <= k < |all| && Late(all, k);
      assert k < |events| ==> Late(events, k);
    }
    assert Late(all, |events|) <==> e.PushEvent? && Extended(Play(events), e.number) < Play(events).next;
  }

  /** Everything handed on over a run, in the order of handing on. */
  function Delivered<P>(events: seq<Event<P>>): seq<Entry<P>> {
    if |events| == 0 then []
    else
      var before := events[..|events| - 1];
      var q := Play(before);
      Delivered(before) + if events[|events| - 1].PopEvent? then q.entries[..RunLength(q.entries, q.next)] else []
  }

  /** The entry is a packet of the run, its extended number one that the packet's number stands for. */
  ghost predicate CameIn<P>(events: seq<Event<P>>, x: Entry<P>) {
    exists k | 0 <= k < |events| ::
      events[k].PushEvent? && events[k].packet == x.packet && events[k].number == x.number % SEQ_MOD
  }

  lemma CameInBefore<P>(events: seq<Event<P>>, e: Event<P>, x: Entry<P>)
    ensures CameIn(events, x) ==> CameIn(events + [e], x)
    ensures e.PushEvent? && e.packet == x.packet && e.number == x.number % SEQ_MOD ==> CameIn(events + [e], x)
  {
    if CameIn(events, x) {
      var k :| 0 <= k < |events| && events[k].PushEvent? && events[k].packet == x.packet
               && events[k].number == x.number % SEQ_MOD;
      assert (events + [e])[k] == events[k];
    }
    assert (events + [e])[|events|] == e;
  }

  /** Handed on are the numbers below next, in order; these and what is held came in. */
  ghost predicate InOrder<P>(d: seq<Entry<P>>, q: Queue<P>, events: seq<Event<P>>) {
    && |d| == q.next && Ordered(q.entries)
    && (forall k | 0 <= k < |d| :: d[k].number == k && CameIn(events, d[k]))
    && forall x | x in q.entries :: CameIn(events, x)
  }

  lemma EndsIn(cycle: nat, number: Seq16)
    ensures (cycle * 0x1_0000 + number) % 0x1_0000_0000 % 0x1_0000 == number
  {
    var q, r := (cycle * 0x1_0000 + number) / 0x1_0000_0000, (cycle * 0x1_0000 + number) % 0x1_0000_0000;
    assert r == (cycle - q * 0x1_0000) * 0x1_0000 + number;
  }

  lemma ExtendedEndsIn<P>(q: Queue<P>, number: Seq16)
    ensures Extended(q, number) % SEQ_MOD == number
  {
    EndsIn(CycleFor(q, number), number);
  }

  lemma PushInOrder<P>(d: seq<Entry<P>>, q: Queue<P>, events: seq<Event<P>>, number: Seq16, packet: P)
    requires InOrder(d, q, events)
    ensures InOrder(d, Pushed(q, number, packet), events + [PushEvent(number, packet)])
  {
    ExtendedEndsIn(q, number);
    hide CameIn, Ordered, Emplace, CycleFor, Extended;
    var r, push := Pushed(q, number, packet), PushEvent(number, packet);
    var e := Entry(Extended(q, number), packet);
    EmplaceKeepsOrder(q.entries, e);
    forall x | x == e || CameIn(events, x) ensures CameIn(events + [push], x) {
      CameInBefore(events, push, x);
    }
    assert r.entries == Emplace(q.entries, e);
  }

  lemma PopInOrder<P>(d: seq<Entry<P>>, q: Queue<P>, events: seq<Event<P>>)
    requires InOrder(d, q, events)
    ensures InOrder(d + q.entries[..RunLength(q.entries, q.next)], Popped(q), events + [PopEvent])
  {
    hide CameIn, RunLength;
    var m, r := RunLength(q.entries, q.next), Popped(q);
    forall x | CameIn(events, x) ensures CameIn(events + [PopEvent], x) {
      CameInBefore(events, PopEvent, x);
    }
    var more := d + q.entries[..m];
    forall k | 0 <= k < |more| ensures more[k].number == k && CameIn(events, more[k]) {
      assert k >= |d| ==> more[k] == q.entries[k - |d|] && more[k] in q.entries;
    }
    assert forall x | x in r.entries :: x in q.entries;
  }

  lemma NothingInOrder<P>()
    ensures InOrder<P>([], Queue([], true, 0, 0, 0), [])
  {
  }

  lemma PlayStep<P>(events: seq<Event<P>>, e: Event<P>)
    ensures Play(events + [e])
         == if e.PushEvent? then Pushed(Play(events), e.number, e.packet) else Popped(Play(events))
  {
    assert (events + [e])[..|events|] == events;
  }

  lemma DeliveredStep<P>(events: seq<Event<P>>, e: Event<P>)
    ensures var q := Play(events);
            Delivered(events + [e])
            == Delivered(events) + if e.PopEvent? then q.entries[..RunLength(q.entries, q.next)] else []
  {
    assert (events + [e])[..|events|] == events;
  }

  /** However pushes and pops interleave, whatever is pushed: what is handed on carries the extended
      numbers 0, 1, 2 and so on, without gap or repeat, and is what was pushed for them. */
  lemma {:induction false} DeliveredInOrder<P>(events: seq<Event<P>>)
    ensures InOrder(Delivered(events), Play(events), events)
  {
    if |events| == 0 {
      NothingInOrder<P>();
    } else {
      var before, e := events[..|events| - 1], events[|events| - 1];
      DeliveredInOrder(before);
      assert events == before + [e];
      PlayStep(before, e);
      DeliveredStep(before, e);
      hide InOrder, Play, Delivered, Pushed, Popped, RunLength;
      if e.PushEvent? {
        PushInOrder(Delivered(before), Play(before), before, e.number, e.packet);
        assert Delivered(before) + [] == Delivered(before);
      } else {
        PopInOrder(Delivered(before), Play(before), before);
      }
    }
  }

  /** What `InOrder` says about what was handed on. */
  lemma HandedOnInOrder<P>(d: seq<Entry<P>>, q: Queue<P>, events: seq<Event<P>>)
    requires InOrder(d, q, events)
    ensures |d| == q.next && forall k | 0 <= k < |d| :: d[k].number == k && CameIn(events, d[k])
  {
  }

  // ---------------------------------------------------------------- what blocks the queue

  /** The front of the map lies below the number waited for. */
  predicate Blocked<P>(q: Queue<P>) {
    |q.entries| > 0 && q.entries[0].number < q.next
  }

  lemma BlockedAfterPush<P>(q: Queue<P>, number: Seq16, packet: P)
    ensures Blocked(Pushed(q, number, packet)) <==> Blocked(q) || Extended(q, number) < q.next
  {
    hide Extended;
  }

  lemma BlockedAfterPop<P>(q: Queue<P>)
    requires Ordered(q.entries)
    ensures Blocked(Popped(q)) <==> Blocked(q)
    ensures Blocked(q) ==> Popped(q) == q
  {
    var m := RunLength(q.entries, q.next);
    if 0 < m < |q.entries| {
      assert q.entries[m - 1].number < q.entries[m].number;
    }
  }

  /** A run, whatever is pushed, leaves the queue blocked exactly when some packet came late. */
  lemma {:induction false} LateBlocksExactly<P>(events: seq<Event<P>>)
    ensures Blocked(Play(events)) <==> SomeLate(events)
  {
    if |events| > 0 {
      var before, e := events[..|events| - 1], events[|events| - 1];
      assert events == before + [e];
      LateBlocksExactly(before);
      LateBefore(before, e);
      if e.PushEvent? {
        BlockedAfterPush(Play(before), e.number, e.packet);
      } else {
        DeliveredInOrder(before);
        BlockedAfterPop(Play(before));
      }
    }
  }

  /** After a late packet nothing is ever handed on again, whatever follows. */
  lemma {:induction false} LateBlocksForGood<P>(events: seq<Event<P>>, more: seq<Event<P>>)
    requires SomeLate(events)
    ensures SomeLate(events + more) && Delivered(events + more) == Delivered(events)
    decreases |more|
  {
    if |more| == 0 {
      assert events + more == events;
    } else {
      var init, e := more[..|more| - 1], more[|more| - 1];
      var before, all := events + init, events + more;
      assert all == before + [e] && all[..|all| - 1] == before;
      LateBlocksForGood(events, init);
      LateBefore(before, e);
      LateBlocksExactly(before);
      assert RunLength(Play(before).entries, Play(before).next) == 0;
    }
  }

  lemma NothingLate<P>()
    ensures !SomeLate<P>([])
  {
  }

  /** The shortest such run: a packet, its delivery, and the packet again. */
  lemma RepeatAfterDeliveryIsLate<P>(p: P, again: P)
    ensures SomeLate([PushEvent(0, p), PopEvent, PushEvent(0, again)])
    ensures !SomeLate([PushEvent(0, p), PushEvent(0, again), PopEvent])
  {
    var e0, e2 := PushEvent(0, p), PushEvent(0, again);
    var one := Queue([Entry(0, p)], false, 0, 0, 0);
    assert Play<P>([]) == Queue([], true, 0, 0, 0);
    assert Pushed(Play<P>([]), 0, p) == one && Popped(one) == Queue([], false, 0, 0, 1);
    hide Play, Pushed, Popped, RunLength, SomeLate;
    assert [] + [e0] == [e0] && [e0] + [PopEvent] == [e0, PopEvent];
    assert [e0, PopEvent] + [e2] == [e0, PopEvent, e2];
    assert [e0] + [e2] == [e0, e2] && [e0, e2] + [PopEvent] == [e0, e2, PopEvent];
    PlayStep<P>([], e0);
    PlayStep<P>([e0], PopEvent);
    NothingLate<P>();
    LateBefore<P>([], e0);
    LateBefore([e0], PopEvent);
    LateBefore([e0, PopEvent], e2);
    LateBefore([e0], e2);
    LateBefore([e0, e2], PopEvent);
  }

  // ---------------------------------------------------------------- runs of true numbers

  /** A push of a packet by the number it has when numbers never wrap. */
  datatype TrueEvent<P> = TruePush(n: nat, packet: P) | TruePop

  function OnTheWire<P>(run: seq<TrueEvent<P>>): (events: seq<Event<P>>)
    ensures |events| == |run|
  {
    seq(|run|, k requires 0 <= k < |run| =>
      if run[k].TruePush? then PushEvent(Wrap16(run[k].n), run[k].packet) else PopEvent)
  }

  /** A newer number moves the highest one up. */
  function TopAfter(top: int, n: nat): int {
    if top < 0 || 0 < n - top <= 32767 || (n - top == 32768 && n / 0x1_0000 == top / 0x1_0000 + 1) then n else top
  }

  /** The highest number of a run, as far as the queue follows it; -1 if there is none. */
  function TopOf<P>(run: seq<TrueEvent<P>>): int {
    if |run| == 0 then -1
    else
      var top, e := TopOf(run[..|run| - 1]), run[|run| - 1];
      if e.TruePush? then TopAfter(top, e.n) else top
  }

  /** In the cycle of the highest number at most 32767 below it, or in the next one at most 32768 above. */
  predicate Near(top: int, n: nat) {
    && n < TS_MOD
    && if top < 0 then n < SEQ_MOD
       else
         || (n / 0x1_0000 == top / 0x1_0000 && top - n <= 32767)
         || (n / 0x1_0000 == top / 0x1_0000 + 1 && n - top <= 32768)
  }

  ghost predicate AllNear<P>(run: seq<TrueEvent<P>>) {
    forall k | 0 <= k < |run| && run[k].TruePush? :: Near(TopOf(run[..k]), run[k].n)
  }

  /** The queue gives every packet of the run its true number. */
  ghost predicate AllTrue<P>(run: seq<TrueEvent<P>>) {
    forall k | 0 <= k < |run| && run[k].TruePush? ::
      Extended(Play(OnTheWire(run[..k])), Wrap16(run[k].n)) == run[k].n
  }

  /** Numbers of 32 bits, none of them nearly the whole range below the highest. */
  ghost predicate InRange<P>(run: seq<TrueEvent<P>>) {
    forall k | 0 <= k < |run| && run[k].TruePush? ::
      run[k].n < TS_MOD && TopOf(run[..k]) - run[k].n <= 0xFFFF_0000
  }

  /** The queue's cycle and number are the highest number's. */
  ghost predicate Follows<P>(q: Queue<P>, top: int) {
    if top < 0 then q.isStart && q.cycle == 0
    else !q.isStart && top == q.cycle * 0x1_0000 + q.maxSeq < TS_MOD
  }

  lemma NumberParts(cycle: nat, number: Seq16)
    ensures (cycle * 0x1_0000 + number) / 0x1_0000 == cycle && Wrap16(cycle * 0x1_0000 + number) == number
  {
  }

  /** Of a packet the extended number is the true one exactly if the packet is near the highest. */
  lemma ExtendedExactly<P>(q: Queue<P>, top: int, n: nat)
    requires Follows(q, top) && n < TS_MOD
    ensures Near(top, n) ==> Extended(q, Wrap16(n)) == n
    ensures top - n <= 0xFFFF_0000 && Extended(q, Wrap16(n)) == n ==> Near(top, n)
  {
    var cycle, number := n / 0x1_0000, Wrap16(n);
    NumberParts(cycle, number);
    if top >= 0 {
      NumberParts(q.cycle, q.maxSeq);
    }
    hide Wrap16;
    assert CycleFor(q, number) <= 0x1_0000;
  }

  lemma FollowsPush<P>(q: Queue<P>, top: int, n: nat, packet: P)
    requires Follows(q, top) && Near(top, n)
    ensures Follows(Pushed(q, Wrap16(n), packet), TopAfter(top, n))
  {
    var cycle, number := n / 0x1_0000, Wrap16(n);
    NumberParts(cycle, number);
    if top >= 0 {
      NumberParts(q.cycle, q.maxSeq);
    }
    hide Wrap16, Emplace, Extended;
  }

  lemma WireStep<P>(run: seq<TrueEvent<P>>, k: nat)
    requires k < |run|
    ensures OnTheWire(run[..k + 1])
         == OnTheWire(run[..k])
            + [if run[k].TruePush? then PushEvent(Wrap16(run[k].n), run[k].packet) else PopEvent]
  {
  }

  lemma TopStep<P>(run: seq<TrueEvent<P>>, k: nat)
    requires k < |run|
    ensures TopOf(run[..k + 1])
         == if run[k].TruePush? then TopAfter(TopOf(run[..k]), run[k].n) else TopOf(run[..k])
  {
    assert run[..k + 1][..k] == run[..k];
  }

  lemma PopFollows<P>(q: Queue<P>, top: int)
    requires Follows(q, top)
    ensures Follows(Popped(q), top)
  {
    hide RunLength;
  }

  /** As long as all packets are near, the queue follows the highest number. */
  lemma {:induction false} RunFollows<P>(run: seq<TrueEvent<P>>, k: nat)
    requires k <= |run|
    requires forall j | 0 <= j < k && run[j].TruePush? :: Near(TopOf(run[..j]), run[j].n)
    ensures Follows(Play(OnTheWire(run[..k])), TopOf(run[..k]))
  {
    if k > 0 {
      var before := OnTheWire(run[..k - 1]);
      RunFollows(run, k - 1);
      WireStep(run, k - 1);
      TopStep(run, k - 1);
      hide Follows, Near, Pushed, Popped, OnTheWire, TopAfter, Wrap16;
      PlayStep(before, if run[k - 1].TruePush? then PushEvent(Wrap16(run[k - 1].n), run[k - 1].packet) else PopEvent);
      if run[k - 1].TruePush? {
        FollowsPush(Play(before), TopOf(run[..k - 1]), run[k - 1].n, run[k - 1].packet);
      } else {
        PopFollows(Play(before), TopOf(run[..k - 1]));
      }
    }
  }

  lemma FirstFar<P>(run: seq<TrueEvent<P>>, from: nat) returns (k: nat)
    requires from <= |run| && !AllNear(run)
    requires forall j | 0 <= j < from && run[j].TruePush? :: Near(TopOf(run[..j]), run[j].n)
    ensures k < |run| && run[k].TruePush? && !Near(TopOf(run[..k]), run[k].n)
    ensures forall j | 0 <= j < k && run[j].TruePush? :: Near(TopOf(run[..j]), run[j].n)
    decreases |run| - from
  {
    hide Near, TopOf;
    if run[from].TruePush? && !Near(TopOf(run[..from]), run[from].n) {
      k := from;
    } else {
      k := FirstFar(run, from + 1);
    }
  }

  lemma NearIsTrue<P>(run: seq<TrueEvent<P>>)
    requires AllNear(run)
    ensures AllTrue(run)
  {
    hide Follows, Extended, Wrap16, TopOf, Play, OnTheWire;
    forall k | 0 <= k < |run| && run[k].TruePush?
      ensures Extended(Play(OnTheWire(run[..k])), Wrap16(run[k].n)) == run[k].n
    {
      RunFollows(run, k);
      ExtendedExactly(Play(OnTheWire(run[..k])), TopOf(run[..k]), run[k].n);
    }
  }

  /** Over any run, in whatever order and across wraps, every extended number is the true one exactly if
      every packet comes near the highest number before it. */
  lemma TrueExactly<P>(run: seq<TrueEvent<P>>)
    requires InRange(run)
    ensures AllTrue(run) <==> AllNear(run)
  {
    if AllNear(run) {
      NearIsTrue(run);
    } else {
      var k := FirstFar(run, 0);
      RunFollows(run, k);
      ExtendedExactly(Play(OnTheWire(run[..k])), TopOf(run[..k]), run[k].n);
    }
  }

  // ---------------------------------------------------------------- what such runs deliver

  predicate WasPushed<P>(run: seq<TrueEvent<P>>, n: nat) {
    exists k | 0 <= k < |run| :: run[k].TruePush? && run[k].n == n
  }

  /** All numbers below next were pushed and handed on; the map holds the other numbers pushed. */
  ghost predicate InStep<P>(q: Queue<P>, run: seq<TrueEvent<P>>) {
    && Ordered(q.entries)
    && (forall n: nat | n < q.next :: WasPushed(run, n))
    && (forall n: nat :: Has(q.entries, n) <==> WasPushed(run, n) && n >= q.next)
  }

  lemma PushedGrows<P>(run: seq<TrueEvent<P>>, e: TrueEvent<P>)
    ensures forall n: nat :: WasPushed(run + [e], n) <==> WasPushed(run, n) || (e.TruePush? && e.n == n)
  {
    forall n: nat ensures WasPushed(run + [e], n) <==> WasPushed(run, n) || (e.TruePush? && e.n == n) {
      if WasPushed(run, n) {
        var k :| 0 <= k < |run| && run[k].TruePush? && run[k].n == n;
        assert (run + [e])[k] == run[k];
      }
      if e.TruePush? && e.n == n {
        assert (run + [e])[|run|] == e;
      }
    }
  }

  lemma HasAfterPop<P>(q: Queue<P>)
    requires Ordered(q.entries) && forall k | 0 <= k < |q.entries| :: q.entries[k].number >= q.next
    ensures forall n: nat :: Has(Popped(q).entries, n) <==> Has(q.entries, n) && n >= Popped(q).next
  {
    hide RunLength;
    var r, m := Popped(q), RunLength(q.entries, q.next);
    assert r.entries == q.entries[m..] && r.next == q.next + m;
    assert forall k | 0 <= k < m :: q.entries[k].number == q.next + k;
    forall k | m <= k < |q.entries| ensures q.entries[k].number >= r.next {
      assert m > 0 ==> q.entries[m - 1].number < q.entries[k].number;
    }
    forall n: nat ensures Has(r.entries, n) <==> Has(q.entries, n) && n >= r.next {
      if Has(r.entries, n) {
        var k :| 0 <= k < |r.entries| && r.entries[k].number == n;
        assert q.entries[m + k].number == n;
      }
      if Has(q.entries, n) && n >= r.next {
        var k :| 0 <= k < |q.entries| && q.entries[k].number == n;
        assert k >= m && r.entries[k - m].number == n;
      }
    }
  }

  lemma PopInStep<P>(q: Queue<P>, run: seq<TrueEvent<P>>)
    requires InStep(q, run)
    ensures InStep(Popped(q), run)
  {
    var r, m := Popped(q), RunLength(q.entries, q.next);
    forall n: nat | q.next <= n < q.next + m ensures WasPushed(run, n) {
      assert q.entries[n - q.next].number == n;
      assert Has(q.entries, n);
    }
    forall k | 0 <= k < |q.entries| ensures q.entries[k].number >= q.next {
      assert Has(q.entries, q.entries[k].number);
    }
    HasAfterPop(q);
  }

  lemma PushInStep<P>(q: Queue<P>, run: seq<TrueEvent<P>>, n: nat, packet: P)
    requires InStep(q, run) && Extended(q, Wrap16(n)) == n && n >= q.next
    ensures InStep(Pushed(q, Wrap16(n), packet), run + [TruePush(n, packet)])
  {
    hide Ordered, Emplace, Has, WasPushed, Extended, Wrap16, CycleFor, IsLargeSeq;
    EmplaceKeepsOrder(q.entries, Entry(n, packet));
    PushedGrows(run, TruePush(n, packet));
  }

  /** A run and one event more, on the wire. */
  lemma RunStep<P>(run: seq<TrueEvent<P>>, e: TrueEvent<P>)
    ensures AllNear(run + [e]) <==> AllNear(run) && (e.TruePush? ==> Near(TopOf(run), e.n))
    ensures OnTheWire(run + [e])
         == OnTheWire(run) + [if e.TruePush? then PushEvent(Wrap16(e.n), e.packet) else PopEvent]
  {
    hide Near, TopOf, Wrap16;
    var all := run + [e];
    assert forall k | 0 <= k < |run| :: all[..k] == run[..k] && all[k] == run[k];
    assert all[..|run|] == run && all[|run|] == e;
    if AllNear(all) {
      forall k | 0 <= k < |run| && run[k].TruePush? ensures Near(TopOf(run[..k]), run[k].n) {
        assert all[k] == run[k] && all[..k] == run[..k];
      }
    }
  }

  lemma LastIsTrue<P>(run: seq<TrueEvent<P>>, n: nat)
    requires AllNear(run) && Near(TopOf(run), n)
    ensures Extended(Play(OnTheWire(run)), Wrap16(n)) == n
  {
    RunFollows(run, |run|);
    assert run[..|run|] == run;
    ExtendedExactly(Play(OnTheWire(run)), TopOf(run), n);
  }

  lemma NothingInStep<P>()
    ensures InStep(Play<P>(OnTheWire([])), [])
  {
    assert forall n: nat :: !WasPushed<P>([], n);
  }

  lemma PopChangesNoPush<P>(q: Queue<P>, run: seq<TrueEvent<P>>)
    requires InStep(q, run)
    ensures InStep(q, run + [TruePop])
  {
    PushedGrows(run, TruePop);
  }

  /** With nothing late, the map holds exactly what was pushed and not yet handed on. */
  lemma {:induction false} RunIsInStep<P>(run: seq<TrueEvent<P>>)
    requires AllNear(run) && !SomeLate(OnTheWire(run))
    ensures InStep(Play(OnTheWire(run)), run)
  {
    if |run| > 0 {
      var before, e := run[..|run| - 1], run[|run| - 1];
      var events := OnTheWire(before);
      assert run == before + [e];
      RunStep(before, e);
      hide AllNear, OnTheWire, Near, TopOf, InStep, Play, Pushed, Popped, Extended, SomeLate, Wrap16;
      var event := if e.TruePush? then PushEvent(Wrap16(e.n), e.packet) else PopEvent;
      LateBefore(events, event);
      RunIsInStep(before);
      PlayStep(events, event);
      if e.TruePush? {
        LastIsTrue(before, e.n);
        PushInStep(Play(events), before, e.n, e.packet);
      } else {
        PopInStep(Play(events), before);
        PopChangesNoPush(Popped(Play(events)), before);
      }
    } else {
      NothingInStep<P>();
    }
  }

  /** A packet of the run under its true number. */
  ghost predicate CameInAs<P>(run: seq<TrueEvent<P>>, x: Entry<P>) { TruePush(x.number, x.packet) in run }

  ghost predicate AllCameIn<P>(run: seq<TrueEvent<P>>, entries: seq<Entry<P>>) {
    forall x | x in entries :: CameInAs(run, x)
  }

  lemma EmplaceCameIn<P>(run: seq<TrueEvent<P>>, entries: seq<Entry<P>>, n: nat, packet: P)
    requires AllCameIn(run, entries) && Ordered(entries)
    ensures AllCameIn(run + [TruePush(n, packet)], Emplace(entries, Entry(n, packet)))
  {
    EmplaceKeepsOrder(entries, Entry(n, packet));
  }

  lemma PopCameIn<P>(run: seq<TrueEvent<P>>, d: seq<Entry<P>>, entries: seq<Entry<P>>, m: nat)
    requires AllCameIn(run, d) && AllCameIn(run, entries) && m <= |entries|
    ensures AllCameIn(run + [TruePop], d + entries[..m]) && AllCameIn(run + [TruePop], entries[m..])
  {
    forall x | x in d || x in entries ensures CameInAs(run + [TruePop], x) {
      assert CameInAs(run, x);
    }
  }

  lemma CameInLater<P>(run: seq<TrueEvent<P>>, d: seq<Entry<P>>, e: TrueEvent<P>)
    requires AllCameIn(run, d)
    ensures AllCameIn(run + [e], d)
  {
  }

  lemma OrderedInOrder<P>(d: seq<Entry<P>>, q: Queue<P>, events: seq<Event<P>>)
    requires InOrder(d, q, events)
    ensures Ordered(q.entries)
  {
  }

  /** What is held and what was handed on are packets of the run under their true numbers. */
  lemma {:induction false} RunCameIn<P>(run: seq<TrueEvent<P>>)
    requires AllNear(run)
    ensures AllCameIn(run, Delivered(OnTheWire(run))) && AllCameIn(run, Play(OnTheWire(run)).entries)
  {
    if |run| > 0 {
      var before, e := run[..|run| - 1], run[|run| - 1];
      var events := OnTheWire(before);
      assert run == before + [e];
      RunStep(before, e);
      RunCameIn(before);
      hide AllNear, OnTheWire, Near, TopOf, Play, Delivered, Extended, Wrap16, AllCameIn, RunLength, IsLargeSeq;
      var event := if e.TruePush? then PushEvent(Wrap16(e.n), e.packet) else PopEvent;
      PlayStep(events, event);
      DeliveredStep(events, event);
      if e.TruePush? {
        LastIsTrue(before, e.n);
        DeliveredInOrder(events);
        OrderedInOrder(Delivered(events), Play(events), events);
        hide InOrder;
        EmplaceCameIn(before, Play(events).entries, e.n, e.packet);
        CameInLater(before, Delivered(events), e);
        assert Delivered(events) + [] == Delivered(events);
      } else {
        PopCameIn(before, Delivered(events), Play(events).entries, RunLength(Play(events).entries, Play(events).next));
      }
    }
  }

  lemma NotWaitingFor<P>(q: Queue<P>, run: seq<TrueEvent<P>>)
    requires InStep(q, run) && (|q.entries| > 0 ==> q.entries[0].number != q.next)
    ensures !Has(q.entries, q.next)
    ensures |q.entries| > 0 ==> Has(q.entries, q.entries[0].number)
  {
    forall k | 0 <= k < |q.entries| ensures q.entries[k].number > q.next {
      assert Has(q.entries, q.entries[0].number);
      assert k > 0 ==> q.entries[0].number < q.entries[k].number;
    }
  }

  lemma StopsAtGap<P>(q: Queue<P>)
    ensures var r := Popped(q);
            |r.entries| > 0 ==> r.entries[0].number != r.next
  {
  }

  lemma NothingIsLeft<P>(run: seq<TrueEvent<P>>, n: nat)
    requires AllNear(run) && !SomeLate(OnTheWire(run)) && forall k: nat :: WasPushed(run, k) <==> k < n
    ensures var q := Popped(Play(OnTheWire(run)));
            q.next == n && q.entries == []
  {
    var before := Play(OnTheWire(run));
    var q := Popped(before);
    RunIsInStep(run);
    PopInStep(before, run);
    StopsAtGap(before);
    NotWaitingFor(q, run);
    assert !WasPushed(run, q.next);
    assert q.next > 0 ==> WasPushed(run, q.next - 1);
  }

  /** Everything was handed on, each packet in the place of its true number. */
  ghost predicate InPlace<P>(d: seq<Entry<P>>, run: seq<TrueEvent<P>>) {
    forall k | 0 <= k < |d| :: d[k].number == k && TruePush(k, d[k].packet) in run
  }

  lemma CameInBeforePop<P>(run: seq<TrueEvent<P>>, d: seq<Entry<P>>)
    requires AllCameIn(run + [TruePop], d) && forall k | 0 <= k < |d| :: d[k].number == k
    ensures InPlace(d, run)
  {
    forall k | 0 <= k < |d| ensures TruePush(k, d[k].packet) in run {
      assert CameInAs(run + [TruePop], d[k]);
    }
  }

  /** If the true numbers pushed are 0 to n - 1, in whatever order as long as each comes near the highest
      before it, with pops in between or not and repeats that come before delivery, then with a pop at the
      end all n packets have been handed on, each in its place, however often the 16-bit number wrapped. */
  lemma PermutationIsDelivered<P>(run: seq<TrueEvent<P>>, n: nat)
    requires AllNear(run) && !SomeLate(OnTheWire(run)) && forall k: nat :: WasPushed(run, k) <==> k < n
    ensures var all := OnTheWire(run) + [PopEvent];
            |Delivered(all)| == n && InPlace(Delivered(all), run) && Play(all).entries == []
  {
    var all, whole := OnTheWire(run) + [PopEvent], run + [TruePop];
    NothingIsLeft(run, n);
    RunStep(run, TruePop);
    PlayStep(OnTheWire(run), PopEvent);
    DeliveredInOrder(all);
    HandedOnInOrder(Delivered(all), Play(all), all);
    RunCameIn(whole);
    hide *;
    CameInBeforePop(run, Delivered(all));
  }

  /** Numbers from 0 to n - 1, repeats or not: a pop at the end leaves nothing exactly when none was late. */
  lemma DeliveredExactly<P>(run: seq<TrueEvent<P>>, n: nat)
    requires AllNear(run) && forall k: nat :: WasPushed(run, k) <==> k < n
    ensures Play(OnTheWire(run) + [PopEvent]).entries == [] <==> !SomeLate(OnTheWire(run))
  {
    var events := OnTheWire(run);
    var all := events + [PopEvent];
    if SomeLate(events) {
      LateBefore(events, PopEvent);
      LateBlocksExactly(all);
    } else {
      PermutationIsDelivered(run, n);
    }
  }

  function CountPushes<P>(run: seq<TrueEvent<P>>): nat {
    if |run| == 0 then 0
    else CountPushes(run[..|run| - 1]) + if run[|run| - 1].TruePush? then 1 else 0
  }

  /** The pushes are those of 0, 1, 2 and so on in order, with pops anywhere. */
  ghost predicate Consecutive<P>(run: seq<TrueEvent<P>>) {
    forall k | 0 <= k < |run| && run[k].TruePush? :: run[k].n == CountPushes(run[..k])
  }

  lemma ConsecutiveSoFar<P>(run: seq<TrueEvent<P>>, k: nat)
    requires Consecutive(run) && k <= |run|
    ensures Consecutive(run[..k])
  {
    hide CountPushes;
    assert forall j | 0 <= j < k :: run[..k][..j] == run[..j] && run[..k][j] == run[j];
  }

  lemma {:induction false} ConsecutiveTop<P>(run: seq<TrueEvent<P>>)
    requires Consecutive(run)
    ensures TopOf(run) == CountPushes(run) - 1
  {
    if |run| > 0 {
      var before := run[..|run| - 1];
      ConsecutiveSoFar(run, |run| - 1);
      ConsecutiveTop(before);
      assert run[|run| - 1].TruePush? ==> run[|run| - 1].n == CountPushes(before);
    }
  }

  /** The next packet in order is near the highest number, across a wrap or not. */
  lemma NextIsNear(top: int)
    requires -1 <= top < TS_MOD - 1
    ensures Near(top, top + 1)
  {
  }

  lemma CountStep<P>(run: seq<TrueEvent<P>>, e: TrueEvent<P>)
    ensures CountPushes(run + [e]) == CountPushes(run) + if e.TruePush? then 1 else 0
  {
    assert (run + [e])[..|run|] == run;
  }

  lemma NextIsBounded<P>(q: Queue<P>, run: seq<TrueEvent<P>>, n: nat)
    requires InStep(q, run) && forall k: nat :: WasPushed(run, k) <==> k < n
    ensures q.next <= n
  {
    assert q.next > 0 ==> WasPushed(run, q.next - 1);
  }

  /** In order every packet is near and on time. */
  lemma {:induction false} ConsecutiveOnTime<P>(run: seq<TrueEvent<P>>)
    requires Consecutive(run) && CountPushes(run) <= TS_MOD
    ensures AllNear(run) && !SomeLate(OnTheWire(run))
    ensures forall k: nat :: WasPushed(run, k) <==> k < CountPushes(run)
  {
    if |run| > 0 {
      var before, e := run[..|run| - 1], run[|run| - 1];
      assert run == before + [e];
      assert e.TruePush? ==> e.n == CountPushes(before);
      ConsecutiveSoFar(run, |run| - 1);
      CountStep(before, e);
      hide AllNear, OnTheWire, Near, TopOf, Play, Extended, SomeLate, Wrap16, WasPushed, CountPushes, Consecutive;
      ConsecutiveOnTime(before);
      ConsecutiveTop(before);
      RunStep(before, e);
      PushedGrows(before, e);
      RunIsInStep(before);
      LateBefore(OnTheWire(before), if e.TruePush? then PushEvent(Wrap16(e.n), e.packet) else PopEvent);
      if e.TruePush? {
        NextIsNear(TopOf(before));
        LastIsTrue(before, e.n);
        NextIsBounded(Play(OnTheWire(before)), before, e.n);
      }
    } else {
      NothingLate<P>();
      assert OnTheWire<P>(run) == [];
    }
  }

  /** Packets pushed in order, as many as 32 bits can count, with pops anywhere between: none is late, and
      after a pop at the end all have been handed on, each in its place, across every wrap. */
  lemma InOrderIsDelivered<P>(run: seq<TrueEvent<P>>)
    requires Consecutive(run) && CountPushes(run) <= TS_MOD
    ensures var events := OnTheWire(run);
            var d := Delivered(events + [PopEvent]);
            && !SomeLate(events) && |d| == CountPushes(run)
            && forall k | 0 <= k < |d| :: d[k].number == k && TruePush(k, d[k].packet) in run
  {
    ConsecutiveOnTime(run);
    PermutationIsDelivered(run, CountPushes(run));
  }
}

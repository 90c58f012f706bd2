/** Whole runs of the NACK generator: who is asked for, how often, and when. */
module NackRuns {
  import opened SeqArithmetic
  import opened NackTracking
  import opened NackTheorems

  /** What happens to the generator. */
  datatype Event = Packet(number: int) | Timer

  /** The record of a run: packets found missing, packets asked for, packets received. */
  datatype Note =
    | Listed(first: int, end: int, atMs: nat)
    | Asked(numbers: seq<int>, at: Moment)
    | Arrived(number: int)

  function TimesAsked(notes: seq<Note>, u: int): nat {
    if |notes| == 0 then 0
    else
      var last := notes[|notes| - 1];
      TimesAsked(notes[..|notes| - 1], u) + if last.Asked? && u in last.numbers then 1 else 0
  }

  /** When it was last asked for; 0 if never. */
  function LastAsked(notes: seq<Note>, u: int): nat {
    if |notes| == 0 then 0
    else
      var last := notes[|notes| - 1];
      if last.Asked? && u in last.numbers then last.at.nowMs else LastAsked(notes[..|notes| - 1], u)
  }

  /** When it was found missing; -1 if never. */
  function ListedAt(notes: seq<Note>, u: int): int {
    if |notes| == 0 then -1
    else
      var last := notes[|notes| - 1];
      if last.Listed? && last.first <= u < last.end then last.atMs else ListedAt(notes[..|notes| - 1], u)
  }

  function HasArrived(notes: seq<Note>, u: int): bool {
    |notes| > 0 && (notes[|notes| - 1] == Arrived(u) || HasArrived(notes[..|notes| - 1], u))
  }

  // ---------------------------------------------------------------- the run

  function Step(t: Tracker, event: Event, at: Moment): (Tracker, seq<Note>) {
    match event
    case Timer =>
      var o := Tick(t, at);
      (o.next, [Asked(o.asked, at)])
    case Packet(number) =>
      var o := Receive(t, number, at);
      if t.started && t.top < number then
        (o.next,
         [Listed(t.top + 1, if o.keyFrameRequired then t.top + 1 else number, at.nowMs),
          Arrived(number), Asked(o.asked, at)])
      else (o.next, [Arrived(number)])
  }

  function Play(events: seq<(Event, Moment)>): (Tracker, seq<Note>) {
    if |events| == 0 then (Tracker(false, 0, [], []), [])
    else
      var last := events[|events| - 1];
      var (t, notes) := Play(events[..|events| - 1]);
      var (next, more) := Step(t, last.0, last.1);
      (next, notes + more)
  }

  // ---------------------------------------------------------------- what every run keeps

  /** An entry of the list agrees with the record. */
  predicate Recorded(m: Missing, notes: seq<Note>) {
    && m.createdAtMs == ListedAt(notes, m.number)
    && m.retries == TimesAsked(notes, m.number) < MAX_NACK_RETRIES
    && m.sentAtMs == LastAsked(notes, m.number)
    && (m.sentAtMs == 0 <==> m.retries == 0)
    && !HasArrived(notes, m.number)
  }

  /** A request is right to be made: the packet was found missing at least the delay ago and has not
      arrived, it was asked for less than ten times, and last at least the wait ago. */
  predicate RightToAsk(u: int, notes: seq<Note>, at: Moment) {
    && 0 <= ListedAt(notes, u)
    && (at.delayMs > 0 ==> at.nowMs - ListedAt(notes, u) >= at.delayMs)
    && !HasArrived(notes, u)
    && TimesAsked(notes, u) < MAX_NACK_RETRIES
    && (TimesAsked(notes, u) > 0 ==> at.nowMs - LastAsked(notes, u) >= at.waitMs)
  }

  predicate Timely(notes: seq<Note>) {
    forall k | 0 <= k < |notes| && notes[k].Asked? ::
      && Ascending(notes[k].numbers)
      && forall u | u in notes[k].numbers :: RightToAsk(u, notes[..k], notes[k].at)
  }

  predicate Unheard(u: int, notes: seq<Note>) {
    TimesAsked(notes, u) == 0 && LastAsked(notes, u) == 0 && !HasArrived(notes, u)
  }

  ghost predicate Faithful(missing: seq<Missing>, top: int, notes: seq<Note>) {
    && (forall m | m in missing :: Recorded(m, notes))
    && (forall u :: u > top ==> Unheard(u, notes))
    && Timely(notes)
  }

  lemma TimelyGrows(notes: seq<Note>, note: Note)
    requires Timely(notes)
    requires note.Asked? ==>
               Ascending(note.numbers) && forall u | u in note.numbers :: RightToAsk(u, notes, note.at)
    ensures Timely(notes + [note])
  {
    var more := notes + [note];
    forall k | 0 <= k < |more| && more[k].Asked?
      ensures Ascending(more[k].numbers) && forall u | u in more[k].numbers :: RightToAsk(u, more[..k], more[k].at)
    {
      assert more[..k] == notes[..k];
      assert k == |notes| ==> more[..k] == notes;
    }
  }

  /** How one more note changes the record of a number. */
  lemma OneMore(notes: seq<Note>, note: Note, u: int)
    ensures var more := notes + [note];
            var asked := note.Asked? && u in note.numbers;
            && TimesAsked(more, u) == TimesAsked(notes, u) + (if asked then 1 else 0)
            && LastAsked(more, u) == (if asked then note.at.nowMs else LastAsked(notes, u))
            && ListedAt(more, u)
               == (if note.Listed? && note.first <= u < note.end then note.atMs else ListedAt(notes, u))
            && (HasArrived(more, u) <==> note == Arrived(u) || HasArrived(notes, u))
  {
    assert (notes + [note])[..|notes|] == notes;
  }

  lemma FaithfulAfterListing(before: seq<Missing>, missing: seq<Missing>, top: int, notes: seq<Note>,
                             end: int, nowMs: nat)
    requires Faithful(before, top, notes) && forall m | m in before :: m.number <= top
    requires forall m | m in missing :: OldOrNew(m, before, top + 1, end, nowMs)
    ensures Faithful(missing, top, notes + [Listed(top + 1, end, nowMs)])
  {
    var note := Listed(top + 1, end, nowMs);
    TimelyGrows(notes, note);
    forall m | m in missing ensures Recorded(m, notes + [note]) {
      assert OldOrNew(m, before, top + 1, end, nowMs);
      OneMore(notes, note, m.number);
      assert m in before ==> Recorded(m, notes);
      assert m.number > top ==> Unheard(m.number, notes);
    }
    forall u | u > top ensures Unheard(u, notes + [note]) {
      assert Unheard(u, notes);
      OneMore(notes, note, u);
    }
  }

  lemma FaithfulAfterArrival(before: seq<Missing>, missing: seq<Missing>, top: int, newTop: int,
                             notes: seq<Note>, number: int)
    requires Faithful(before, top, notes) && top <= newTop && number <= newTop
    requires forall m | m in missing :: m in before && m.number != number
    ensures Faithful(missing, newTop, notes + [Arrived(number)])
  {
    var note := Arrived(number);
    TimelyGrows(notes, note);
    forall m | m in missing ensures Recorded(m, notes + [note]) {
      assert Recorded(m, notes);
      OneMore(notes, note, m.number);
    }
    forall u | u > newTop ensures Unheard(u, notes + [note]) {
      assert Unheard(u, notes);
      OneMore(notes, note, u);
    }
  }

  /** What a batch asks for is right to be asked for. */
  lemma BatchIsRight(missing: seq<Missing>, top: int, notes: seq<Note>, filter: NackFilter, at: Moment, u: int)
    requires Faithful(missing, top, notes) && Ascending(Numbers(missing)) && u in Batch(missing, filter, at)
    requires forall m | m in missing :: m.number <= top
    ensures RightToAsk(u, notes, at) && u <= top
  {
    BatchIsDue(missing, filter, at);
    hide Batch, Ascending;
    var k :| 0 <= k < |missing| && Numbers(missing)[k] == u;
    assert missing[k] in missing && missing[k].number == u;
    assert Recorded(missing[k], notes) && Due(missing[k], filter, at);
  }

  /** What a batch leaves listed is recorded. */
  lemma LeftIsRecorded(missing: seq<Missing>, notes: seq<Note>, filter: NackFilter, at: Moment, x: Missing)
    requires (forall m | m in missing :: Recorded(m, notes)) && Ascending(Numbers(missing)) && at.nowMs > 0
    requires x in AfterBatch(missing, filter, at)
    ensures Recorded(x, notes + [Asked(Batch(missing, filter, at), at)])
  {
    BatchIsDue(missing, filter, at);
    AfterBatchIsUpdated(missing, filter, at);
    hide Batch, AfterBatch, Ascending, Due, RightToAsk;
    assert Stems(x, missing, filter, at);
    var m :| m in missing && Survives(m, filter, at) && x == Updated(m, filter, at);
    assert Recorded(m, notes);
    OneMore(notes, Asked(Batch(missing, filter, at), at), m.number);
  }

  lemma FaithfulAfterAsking(missing: seq<Missing>, top: int, notes: seq<Note>, filter: NackFilter, at: Moment)
    requires Faithful(missing, top, notes) && Ascending(Numbers(missing)) && at.nowMs > 0
    requires forall m | m in missing :: m.number <= top
    ensures Faithful(AfterBatch(missing, filter, at), top, notes + [Asked(Batch(missing, filter, at), at)])
  {
    var batch := Batch(missing, filter, at);
    var note := Asked(batch, at);
    BatchIsDue(missing, filter, at);
    hide Batch, AfterBatch, Recorded, RightToAsk, Numbers;
    forall u | u in batch ensures RightToAsk(u, notes, at) && u <= top {
      BatchIsRight(missing, top, notes, filter, at, u);
    }
    TimelyGrows(notes, note);
    forall x | x in AfterBatch(missing, filter, at) ensures Recorded(x, notes + [note]) {
      LeftIsRecorded(missing, notes, filter, at, x);
    }
    forall u | u > top ensures Unheard(u, notes + [note]) {
      assert Unheard(u, notes);
      OneMore(notes, note, u);
    }
  }

  ghost predicate Kept(t: Tracker, notes: seq<Note>) {
    && Sound(t) && Timely(notes)
    && (t.started ==> Faithful(t.missing, t.top, notes))
    && (!t.started ==> forall u :: Unheard(u, notes))
  }

  lemma TimerKeeps(t: Tracker, notes: seq<Note>, at: Moment)
    requires Kept(t, notes) && at.nowMs > 0
    ensures Kept(Step(t, Timer, at).0, notes + Step(t, Timer, at).1)
  {
    AfterBatchIsSound(t, ByTime, at);
    forall m | m in t.missing ensures m.number <= t.top {
    }
    if t.started {
      FaithfulAfterAsking(t.missing, t.top, notes, ByTime, at);
    } else {
      var note := Asked([], at);
      TimelyGrows(notes, note);
      forall u ensures Unheard(u, notes + [note]) {
        assert Unheard(u, notes);
        OneMore(notes, note, u);
      }
    }
  }

  /** A gap listed, a packet arrived, a batch asked for. */
  lemma FaithfulAfterNewer(t: Tracker, notes: seq<Note>, listed: seq<Missing>, end: int, number: int, at: Moment)
    requires Faithful(t.missing, t.top, notes) && at.nowMs > 0 && t.top < number
    requires forall m | m in t.missing :: m.number <= t.top
    requires forall m | m in listed :: OldOrNew(m, t.missing, t.top + 1, end, at.nowMs)
    requires Ascending(Numbers(listed)) && forall m | m in listed :: m.number < number
    ensures Faithful(AfterBatch(listed, BySeq, at), number,
                     notes + [Listed(t.top + 1, end, at.nowMs), Arrived(number), Asked(Batch(listed, BySeq, at), at)])
  {
    hide Faithful, Batch, AfterBatch, OldOrNew, Ascending, Numbers;
    var gap, arrived := Listed(t.top + 1, end, at.nowMs), Arrived(number);
    FaithfulAfterListing(t.missing, listed, t.top, notes, end, at.nowMs);
    FaithfulAfterArrival(listed, listed, t.top, number, notes + [gap], number);
    FaithfulAfterAsking(listed, number, notes + [gap] + [arrived], BySeq, at);
    var asked := Asked(Batch(listed, BySeq, at), at);
    assert notes + [gap] + [arrived] + [asked] == notes + [gap, arrived, asked];
  }

  lemma NewerStep(t: Tracker, number: int, at: Moment)
    requires t.started && t.top < number
    ensures var r := Extended(t, number, at.nowMs);
            var end := if r.keyFrameRequired then t.top + 1 else number;
            Step(t, Packet(number), at)
            == (Tracker(true, number, AfterBatch(r.missing, BySeq, at), r.keyFrames),
                [Listed(t.top + 1, end, at.nowMs), Arrived(number), Asked(Batch(r.missing, BySeq, at), at)])
    ensures Step(t, Packet(number), at).0 == Receive(t, number, at).next
  {
  }

  lemma NewerPacketKeeps(t: Tracker, notes: seq<Note>, number: int, at: Moment)
    requires Kept(t, notes) && at.nowMs > 0 && t.started && t.top < number
    ensures Kept(Step(t, Packet(number), at).0, notes + Step(t, Packet(number), at).1)
  {
    ReceiveKeepsSound(t, number, at);
    ExtendedIsSound(t, number, at.nowMs);
    NewerStep(t, number, at);
    hide Step, Receive, Extended, Batch, AfterBatch, OldOrNew, Recorded, Unheard, Timely, Ascending;
    var r := Extended(t, number, at.nowMs);
    var end := if r.keyFrameRequired then t.top + 1 else number;
    assert forall m | m in r.missing :: OldOrNew(m, t.missing, t.top + 1, end, at.nowMs) && m.number < number;
    FaithfulAfterNewer(t, notes, r.missing, end, number, at);
  }

  lemma NotListed(t: Tracker, number: int, m: Missing)
    requires Sound(t) && m in t.missing
    requires var i := FirstFrom(Numbers(t.missing), number, 0);
             i < |t.missing| ==> t.missing[i].number != number
    ensures m.number != number
  {
    var i := FirstFrom(Numbers(t.missing), number, 0);
    var k :| 0 <= k < |t.missing| && t.missing[k] == m;
    assert Numbers(t.missing)[k] == m.number;
    assert i < |t.missing| ==> Numbers(t.missing)[i] == t.missing[i].number;
  }

  /** A packet that is not newer only takes its own number off the list. */
  lemma OnlyItsOwn(t: Tracker, number: int, at: Moment)
    requires Sound(t) && (!t.started || number <= t.top)
    ensures var next := Receive(t, number, at).next;
            && next.top == (if t.started then t.top else number) && next.started
            && forall m | m in next.missing :: m in t.missing && m.number != number
  {
    hide Ascending;
    if t.started && number < t.top {
      var i := FirstFrom(Numbers(t.missing), number, 0);
      if i < |t.missing| && t.missing[i].number == number {
        RemovedIsSound(t, i);
      } else {
        forall m | m in t.missing ensures m.number != number {
          NotListed(t, number, m);
        }
      }
    }
  }

  lemma OtherPacketKeeps(t: Tracker, notes: seq<Note>, number: int, at: Moment)
    requires Kept(t, notes) && (!t.started || number <= t.top)
    ensures Kept(Step(t, Packet(number), at).0, notes + Step(t, Packet(number), at).1)
  {
    ReceiveKeepsSound(t, number, at);
    OnlyItsOwn(t, number, at);
    var next, top := Receive(t, number, at).next, if t.started then t.top else number;
    assert Faithful(t.missing, top, notes);
    hide Receive, Sound, Faithful, Timely, Unheard;
    FaithfulAfterArrival(t.missing, next.missing, top, next.top, notes, number);
    TimelyGrows(notes, Arrived(number));
  }

  lemma StepGoes(t: Tracker, number: int, at: Moment)
    ensures Step(t, Packet(number), at).0 == Receive(t, number, at).next
    ensures Step(t, Timer, at).0 == Tick(t, at).next
  {
  }

  /** Every step, whatever happens. */
  lemma StepKeeps(t: Tracker, notes: seq<Note>, event: Event, at: Moment)
    requires Kept(t, notes) && at.nowMs > 0
    ensures Kept(Step(t, event, at).0, notes + Step(t, event, at).1)
  {
    match event
    case Timer => TimerKeeps(t, notes, at);
    case Packet(number) =>
      if t.started && t.top < number {
        NewerPacketKeeps(t, notes, number, at);
      } else {
        OtherPacketKeeps(t, notes, number, at);
      }
  }

  /** Asked for at the right times only, hence at most ten times. */
  lemma {:induction false} AtMostTen(notes: seq<Note>, u: int)
    requires Timely(notes)
    ensures TimesAsked(notes, u) <= 10
  {
    if |notes| > 0 {
      var before := notes[..|notes| - 1];
      forall k | 0 <= k < |before| && before[k].Asked?
        ensures Ascending(before[k].numbers)
        ensures forall v | v in before[k].numbers :: RightToAsk(v, before[..k], before[k].at)
      {
        assert before[..k] == notes[..k] && before[k] == notes[k];
      }
      AtMostTen(before, u);
      assert notes[|notes| - 1].Asked? && u in notes[|notes| - 1].numbers ==>
               RightToAsk(u, before, notes[|notes| - 1].at);
    }
  }

  /** What a record kept at every step says about it. */
  lemma KeptIsRight(t: Tracker, notes: seq<Note>)
    requires Kept(t, notes)
    ensures Timely(notes) && forall u :: TimesAsked(notes, u) <= 10
    ensures |t.missing| <= 1000 && forall m | m in t.missing :: !HasArrived(notes, m.number)
  {
    assert Timely(notes);
    forall u ensures TimesAsked(notes, u) <= 10 {
      AtMostTen(notes, u);
    }
    forall m | m in t.missing ensures !HasArrived(notes, m.number) {
      assert Recorded(m, notes);
    }
  }

  /** Every run, however long: the list stays within its bounds and holds no packet that has arrived;
      every request is right to be made; no packet is asked for more than ten times. */
  lemma {:induction false} EveryRun(events: seq<(Event, Moment)>)
    requires forall k | 0 <= k < |events| :: events[k].1.nowMs > 0
    ensures var (t, notes) := Play(events);
            && Kept(t, notes)
            && (forall m | m in t.missing :: !HasArrived(notes, m.number))
            && |t.missing| <= 1000 && (forall u :: TimesAsked(notes, u) <= 10)
  {
    var (t, notes) := Play(events);
    if |events| == 0 {
      assert forall u :: Unheard(u, notes);
    } else {
      var last := events[|events| - 1];
      EveryRun(events[..|events| - 1]);
      var (before, record) := Play(events[..|events| - 1]);
      StepKeeps(before, record, last.0, last.1);
    }
    KeptIsRight(t, notes);
  }

  /** A packet never asked for and listed long enough is in the next batch, be it the timer's or the
      one that goes with a newer packet and finds it still listed. */
  lemma NeverSentIsNext(t: Tracker, m: Missing, number: int, at: Moment)
    requires Sound(t) && m.sentAtMs == 0 && (at.delayMs > 0 ==> at.nowMs - m.createdAtMs >= at.delayMs)
    ensures m in t.missing ==> m.number in Tick(t, at).asked
    ensures t.started && t.top < number && m in Extended(t, number, at.nowMs).missing ==>
              m.number in Receive(t, number, at).asked
  {
    BatchIsDue(t.missing, ByTime, at);
    if t.started && t.top < number {
      ExtendedIsSound(t, number, at.nowMs);
      BatchIsDue(Extended(t, number, at.nowMs).missing, BySeq, at);
    }
  }

  /** The timer asks for a listed packet exactly when it has been listed for the delay and was never asked
      for, or last the wait ago: a repeat comes with the first timer that is due. */
  lemma TimerAsksExactly(t: Tracker, m: Missing, at: Moment)
    requires Sound(t) && m in t.missing
    ensures m.number in Tick(t, at).asked
            <==> && (at.delayMs > 0 ==> at.nowMs - m.createdAtMs >= at.delayMs)
                 && (m.sentAtMs == 0 || at.nowMs - m.sentAtMs >= at.waitMs)
  {
    BatchIsDue(t.missing, ByTime, at);
    hide Batch;
    var i :| 0 <= i < |t.missing| && t.missing[i] == m;
    if m.number in Tick(t, at).asked {
      var k :| 0 <= k < |t.missing| && Numbers(t.missing)[k] == m.number && Due(t.missing[k], ByTime, at);
      assert Numbers(t.missing)[i] == m.number && k == i;
    }
  }

  lemma OneEntryEach(t: Tracker, m: Missing, n: Missing)
    requires Sound(t) && m in t.missing && n in t.missing && m.number == n.number
    ensures m == n
  {
    var i :| 0 <= i < |t.missing| && t.missing[i] == m;
    var j :| 0 <= j < |t.missing| && t.missing[j] == n;
    assert Numbers(t.missing)[i] == m.number && Numbers(t.missing)[j] == n.number;
  }

  lemma AskedIsDue(t: Tracker, m: Missing, at: Moment)
    requires Sound(t) && m in t.missing && m.number in Tick(t, at).asked
    ensures Due(m, ByTime, at)
  {
    TimerAsksExactly(t, m, at);
  }

  lemma ListedUnder(missing: seq<Missing>, m: Missing)
    requires m in missing
    ensures m.number in Numbers(missing)
  {
    var k :| 0 <= k < |missing| && missing[k] == m;
    assert Numbers(missing)[k] == m.number;
  }

  lemma EntryUnder(missing: seq<Missing>, number: int) returns (m: Missing)
    requires number in Numbers(missing)
    ensures m in missing && m.number == number
  {
    var k :| 0 <= k < |missing| && Numbers(missing)[k] == number;
    m := missing[k];
  }

  /** A request takes its packet off the list exactly if it is the tenth for it. */
  lemma TenthIsLast(t: Tracker, m: Missing, at: Moment)
    requires Sound(t) && m in t.missing && m.number in Tick(t, at).asked
    ensures m.number in Numbers(Tick(t, at).next.missing) <==> m.retries < 9
  {
    hide Batch, AfterBatch, Ascending, Due, Numbers;
    AfterBatchIsUpdated(t.missing, ByTime, at);
    AskedIsDue(t, m, at);
    var after := Tick(t, at).next.missing;
    if m.retries < 9 {
      ListedUnder(after, Updated(m, ByTime, at));
    } else if m.number in Numbers(after) {
      var x := EntryUnder(after, m.number);
      assert Stems(x, t.missing, ByTime, at);
      var n :| n in t.missing && Survives(n, ByTime, at) && x == Updated(n, ByTime, at);
      OneEntryEach(t, m, n);
    }
  }

  /** A newer packet that needs no room keeps listed what is at most 10000 behind it. */
  lemma RecentIsKept(t: Tracker, m: Missing, number: int, nowMs: nat)
    requires Sound(t) && t.started && t.top < number && m in t.missing
    requires number - 10000 <= m.number && |t.missing| + number - t.top - 1 <= 1000
    ensures m in Extended(t, number, nowMs).missing
  {
    DropBelowKeeps(t.missing, number - 10000);
    hide DropBelow, Ascending;
  }

  /** A packet counts as found exactly when it is listed and was asked for. */
  lemma FoundExactly(t: Tracker, number: int, at: Moment)
    requires Sound(t)
    ensures Receive(t, number, at).found
            <==> t.started && exists m | m in t.missing :: m.number == number && m.retries != 0
  {
    if t.started && number < t.top {
      var numbers := Numbers(t.missing);
      var i := FirstFrom(numbers, number, 0);
      assert forall k | i < k < |numbers| :: numbers[i] < numbers[k];
      forall m | m in t.missing && m.number == number
        ensures i < |t.missing| && m == t.missing[i]
      {
        var k :| 0 <= k < |t.missing| && t.missing[k] == m;
        assert numbers[k] == number && k >= i;
      }
    }
  }
}

/** The NACK generator itself: 16-bit numbers in containers ordered by the circular comparator. It does
    what `NackTracking` does on numbers that never wrap. */
module NackGenerator {
  import opened SeqArithmetic
  import opened Words
  import opened NackTracking
  import opened NackTheorems
  import opened NackRuns

  /** How far a packet may be ahead for all numbers held and the new one to be within half a circle. */
  const MAX_JUMP: nat := 22767

  /** An entry of `nack_list_`, an ordered map from `seq` on. */
  datatype NackInfo = NackInfo(createdAtMs: nat, number: Seq16, sendAtSeq: Seq16, sentAtMs: nat, retries: nat)

  function Seqs(list: seq<NackInfo>): (r: seq<Seq16>)
    ensures |r| == |list|
  {
    seq(|list|, i requires 0 <= i < |list| => list[i].number)
  }

  /** `lower_bound` in a container ordered by `SeqLowerThan`, from place i on. */
  function LowerBound(seqs: seq<Seq16>, key: Seq16, i: nat): (r: nat)
    requires i <= |seqs|
    ensures i <= r <= |seqs|
    decreases |seqs| - i
  {
    if i == |seqs| || !SeqLower(seqs[i], key) then i else LowerBound(seqs, key, i + 1)
  }

  // ---------------------------------------------------------------- wrapped numbers

  ghost function Wrapped(m: Missing): NackInfo {
    NackInfo(m.createdAtMs, Wrap16(m.number), Wrap16(m.number), m.sentAtMs, m.retries)
  }

  ghost function WrappedList(missing: seq<Missing>): (r: seq<NackInfo>)
    ensures |r| == |missing|
  {
    seq(|missing|, i requires 0 <= i < |missing| => Wrapped(missing[i]))
  }

  ghost function WrappedNumbers(numbers: seq<int>): (r: seq<Seq16>)
    ensures |r| == |numbers|
  {
    seq(|numbers|, i requires 0 <= i < |numbers| => Wrap16(numbers[i]))
  }

  /** All within half a circle up to the given number. */
  predicate InWindow(numbers: seq<int>, end: int) {
    forall k | 0 <= k < |numbers| :: end - 0x7FFF <= numbers[k] <= end
  }

  /** On numbers within half a circle the circular comparator is the order of the numbers, so the
      search in an ordered container finds the place it would find among numbers that never wrap. */
  lemma {:induction false} LowerBoundIsFirstFrom(numbers: seq<int>, n: int, end: int, i: nat)
    requires InWindow(numbers, end) && end - 0x7FFF <= n <= end && i <= |numbers|
    ensures LowerBound(WrappedNumbers(numbers), Wrap16(n), i) == FirstFrom(numbers, n, i)
    decreases |numbers| - i
  {
    if i < |numbers| {
      UnwrappedOrder(0x8000, numbers[i], n);
      LowerBoundIsFirstFrom(numbers, n, end, i + 1);
    }
  }

  /** What the ordered containers rely on: on the numbers held and looked for, the comparator is a
      strict total order, and the numbers held are in that order. */
  lemma ComparatorOrdersWindow(numbers: seq<int>, end: int, i: nat, j: nat, k: nat)
    requires InWindow(numbers, end) && Ascending(numbers) && i < |numbers| && j < |numbers| && k < |numbers|
    ensures var s := WrappedNumbers(numbers);
            && (SeqLower(s[i], s[j]) <==> i < j)
            && (s[i] == s[j] <==> i == j)
            && (SeqLower(s[i], s[j]) && SeqLower(s[j], s[k]) ==> SeqLower(s[i], s[k]))
  {
    UnwrappedOrder(0x8000, numbers[i], numbers[j]);
    UnwrappedOrder(0x8000, numbers[j], numbers[k]);
    UnwrappedOrder(0x8000, numbers[i], numbers[k]);
  }

  lemma WrappedSlices(missing: seq<Missing>, i: nat)
    requires i <= |missing|
    ensures WrappedList(missing)[i..] == WrappedList(missing[i..])
    ensures WrappedList(missing)[..i] == WrappedList(missing[..i])
    ensures Numbers(missing[i..]) == Numbers(missing)[i..]
    ensures Seqs(WrappedList(missing)) == WrappedNumbers(Numbers(missing))
  {
  }

  /** `std::map::emplace`: puts the entry at its place unless its key is there. */
  function Emplaced(list: seq<NackInfo>, info: NackInfo): seq<NackInfo> {
    var at := LowerBound(Seqs(list), info.number, 0);
    if at < |list| && !SeqLower(info.number, list[at].number) then list
    else list[..at] + [info] + list[at..]
  }

  /** `std::set::insert`, likewise. */
  function Inserted(list: seq<Seq16>, number: Seq16): seq<Seq16> {
    var at := LowerBound(list, number, 0);
    if at < |list| && !SeqLower(number, list[at]) then list
    else list[..at] + [number] + list[at..]
  }

  lemma KeyIsThere(numbers: seq<int>, n: int, end: int, at: nat)
    requires InWindow(numbers, end) && end - 0x7FFF <= n <= end && at < |numbers| && n <= numbers[at]
    ensures SeqLower(Wrap16(n), Wrap16(numbers[at])) <==> n != numbers[at]
  {
    UnwrappedOrder(0x8000, n, numbers[at]);
  }

  /** Within half a circle, a new entry goes in before the first higher number, and one whose number is there
      changes nothing. */
  lemma EmplacedInOrder(missing: seq<Missing>, m: Missing, end: int)
    requires InWindow(Numbers(missing), end) && end - 0x7FFF <= m.number <= end
    ensures var at := FirstFrom(Numbers(missing), m.number, 0);
            Emplaced(WrappedList(missing), Wrapped(m))
            == if at < |missing| && missing[at].number == m.number then WrappedList(missing)
               else WrappedList(missing[..at] + [m] + missing[at..])
  {
    var at := FirstFrom(Numbers(missing), m.number, 0);
    WrappedSlices(missing, 0);
    LowerBoundIsFirstFrom(Numbers(missing), m.number, end, 0);
    if at < |missing| {
      assert Numbers(missing)[at] == missing[at].number;
      KeyIsThere(Numbers(missing), m.number, end, at);
    }
    hide LowerBound, FirstFrom, SeqLower, InWindow, Wrap16;
    WrappedSlices(missing, at);
    assert WrappedList(missing)[..at] + [Wrapped(m)] + WrappedList(missing)[at..]
           == WrappedList(missing[..at] + [m] + missing[at..]);
  }

  /** Likewise for the key frames. */
  lemma InsertedInOrder(numbers: seq<int>, n: int, end: int)
    requires InWindow(numbers, end) && end - 0x7FFF <= n <= end
    ensures var at := FirstFrom(numbers, n, 0);
            Inserted(WrappedNumbers(numbers), Wrap16(n))
            == if at < |numbers| && numbers[at] == n then WrappedNumbers(numbers)
               else WrappedNumbers(numbers[..at] + [n] + numbers[at..])
  {
    var at := FirstFrom(numbers, n, 0);
    LowerBoundIsFirstFrom(numbers, n, end, 0);
    if at < |numbers| {
      KeyIsThere(numbers, n, end, at);
    }
    hide LowerBound, FirstFrom, SeqLower, InWindow, Wrap16;
    assert WrappedNumbers(numbers)[..at] + [Wrap16(n)] + WrappedNumbers(numbers)[at..]
           == WrappedNumbers(numbers[..at] + [n] + numbers[at..]);
  }

  lemma LowerBoundAtEnd(numbers: seq<int>, n: int, end: int)
    requires InWindow(numbers, end) && n <= end && forall k | 0 <= k < |numbers| :: numbers[k] < n
    ensures LowerBound(WrappedNumbers(numbers), Wrap16(n), 0) == |numbers|
  {
    if |numbers| > 0 {
      assert end - 0x7FFF <= numbers[0] < n;
      LowerBoundIsFirstFrom(numbers, n, end, 0);
    }
  }

  lemma EmplacedAtEnd(missing: seq<Missing>, m: Missing, end: int)
    requires InWindow(Numbers(missing), end) && m.number <= end
    requires forall k | 0 <= k < |missing| :: missing[k].number < m.number
    ensures Emplaced(WrappedList(missing), Wrapped(m)) == WrappedList(missing + [m])
  {
    WrappedSlices(missing, 0);
    LowerBoundAtEnd(Numbers(missing), m.number, end);
  }

  lemma InsertedAtEnd(numbers: seq<int>, n: int)
    requires InWindow(numbers, n) && forall k | 0 <= k < |numbers| :: numbers[k] < n
    ensures Inserted(WrappedNumbers(numbers), Wrap16(n)) == WrappedNumbers(numbers + [n])
  {
    LowerBoundAtEnd(numbers, n, n);
  }

  lemma NothingKept()
    ensures Kept(Tracker(false, 0, [], []), [])
  {
    assert forall u :: Unheard(u, []);
  }

  lemma FirstRecent(numbers: seq<int>, n: int, number: Seq16)
    requires InWindow(numbers, n) && number == Wrap16(n)
    ensures LowerBound(WrappedNumbers(numbers), Wrap16(number - MAX_PACKET_AGE), 0)
         == FirstFrom(numbers, n - MAX_PACKET_AGE, 0)
  {
    LowerBoundIsFirstFrom(numbers, n - MAX_PACKET_AGE, n, 0);
    WrapAdd(n, -10000);
  }

  lemma KeyFramesInWindow(t: Tracker, n: int)
    requires Sound(t) && t.top < n <= t.top + MAX_JUMP
    ensures Ascending(t.keyFrames) && InWindow(t.keyFrames, n) && InWindow(t.keyFrames + [n], n)
    ensures forall k | 0 <= k < |t.keyFrames| :: t.keyFrames[k] < n
  {
  }

  lemma WrappedSuffix(numbers: seq<int>, i: nat, end: int)
    requires i <= |numbers| && InWindow(numbers, end)
    ensures WrappedNumbers(numbers)[i..] == WrappedNumbers(numbers[i..]) && InWindow(numbers[i..], end)
  {
  }

  lemma NotedKeyFrames(t: Tracker, n: int, number: Seq16, keyFrameList: seq<Seq16>)
    requires Sound(t) && t.top < n <= t.top + MAX_JUMP
    requires number == Wrap16(n) && keyFrameList == WrappedNumbers(t.keyFrames)
    ensures var list, frames := Inserted(keyFrameList, number), FramesWith(t.keyFrames, n);
            && list[LowerBound(list, Wrap16(number - MAX_PACKET_AGE), 0)..] == WrappedNumbers(frames)
            && InWindow(frames, n) && FramesUpTo(frames, n)
  {
    var added := t.keyFrames + [n];
    KeyFramesInWindow(t, n);
    hide Sound, Ascending, Inserted, LowerBound, WrappedNumbers, Wrap16, InWindow;
    FramesReady(t.keyFrames, n);
    InsertedAtEnd(t.keyFrames, n);
    FirstRecent(added, n, number);
    hide FramesUpTo, FirstFrom;
    WrappedSuffix(added, FirstFrom(added, n - MAX_PACKET_AGE, 0), n);
  }

  lemma NewerNumber(t: Tracker, number: Seq16, lastSeq: Seq16)
    requires lastSeq == Wrap16(t.top) && number != lastSeq
    ensures var n := t.top + Sub16(number, lastSeq);
            t.top < n && number == Wrap16(n) && Next16(lastSeq) == Wrap16(t.top + 1)
  {
    WrapAdd(t.top, Sub16(number, lastSeq));
    WrapAdd(t.top, 1);
  }

  lemma NewerInWindow(t: Tracker, n: int)
    requires Sound(t) && t.top < n <= t.top + MAX_JUMP
    ensures InWindow(Numbers(t.missing), n) && Ascending(Numbers(t.missing)) && n - 0x7FFF <= t.top + 1 <= n
    ensures |t.missing| <= MAX_NACK_PACKETS && forall k | 0 <= k < |t.missing| :: t.missing[k].number < t.top + 1
  {
  }

  predicate InTime(missing: seq<Missing>, clock: nat) {
    forall m | m in missing :: m.createdAtMs <= clock && m.sentAtMs <= clock
  }

  lemma MissingInWindow(t: Tracker)
    requires Sound(t)
    ensures forall m | m in t.missing :: t.top - 0x7FFF <= m.number <= t.top
    ensures !t.started ==> |t.missing| == 0
  {
  }

  lemma AfterBatchInTime(missing: seq<Missing>, filter: NackFilter, at: Moment, clock: nat)
    requires Ascending(Numbers(missing)) && at.nowMs <= clock && InTime(missing, clock)
    ensures InTime(AfterBatch(missing, filter, at), clock)
  {
    AfterBatchIsUpdated(missing, filter, at);
    forall x | x in AfterBatch(missing, filter, at) ensures x.createdAtMs <= clock && x.sentAtMs <= clock {
      assert Stems(x, missing, filter, at);
    }
  }

  /** What a newer packet leaves, in terms of the extended list. */
  lemma NewerIsSound(t: Tracker, n: int, nowMs: nat, clock: nat, at: Moment)
    requires Sound(t) && t.started && t.top < n && clock <= nowMs == at.nowMs && InTime(t.missing, clock)
    ensures var r, o := Extended(t, n, nowMs), Receive(t, n, at);
            && InTime(r.missing, nowMs) && (forall m | m in r.missing :: n - 0x7FFF <= m.number <= n)
            && Sound(o.next) && InTime(o.next.missing, nowMs)
            && o == Outcome(Tracker(true, n, AfterBatch(r.missing, BySeq, at), r.keyFrames), false,
                            Batch(r.missing, BySeq, at), r.keyFrameRequired)
  {
    ExtendedIsSound(t, n, nowMs);
    var r := Extended(t, n, nowMs);
    MissingInWindow(Tracker(true, n, r.missing, r.keyFrames));
    forall m | m in r.missing ensures m.createdAtMs <= nowMs && m.sentAtMs <= nowMs {
      assert OldOrNew(m, t.missing, t.top + 1, n, nowMs);
    }
    AfterBatchInTime(r.missing, BySeq, at, nowMs);
    ReceiveKeepsSound(t, n, at);
  }

  lemma Erased(t: Tracker, at: nat, clock: nat)
    requires Sound(t) && at < |t.missing| && InTime(t.missing, clock)
    ensures var list, rest := WrappedList(t.missing), t.missing[..at] + t.missing[at + 1..];
            && list[at].retries == t.missing[at].retries
            && list[..at] + list[at + 1..] == WrappedList(rest) && Sound(t.(missing := rest))
            && InTime(rest, clock)
  {
    RemovedIsSound(t, at);
    var rest := t.missing[..at] + t.missing[at + 1..];
    assert forall m | m in rest :: m in t.missing;
    hide Sound;
  }

  lemma ReceiveOlder(t: Tracker, n: int, at: Moment)
    requires t.started && n < t.top
    ensures var i := FirstFrom(Numbers(t.missing), n, 0);
            Receive(t, n, at)
            == if i < |t.missing| && t.missing[i].number == n
               then Outcome(t.(missing := t.missing[..i] + t.missing[i + 1..]), t.missing[i].retries != 0, [], false)
               else Outcome(t, false, [], false)
  {
  }

  /** The first packet of all, and the newest one again. */
  lemma FirstOrSame(t: Tracker, number: Seq16, lastSeq: Seq16, keyFrameList: seq<Seq16>, at: Moment)
    requires Sound(t) && keyFrameList == WrappedNumbers(t.keyFrames)
    ensures !SeqLower(lastSeq, lastSeq) && Sub16(lastSeq, lastSeq) == 0 && Wrap16(number) == number
    ensures t.started ==> Receive(t, t.top, at) == Outcome(t, false, [], false)
    ensures var first := Tracker(true, number, [], [number]);
            !t.started ==>
              && Receive(t, number, at) == Outcome(first, false, [], false)
              && Sound(first) && WrappedList(t.missing) == WrappedList([])
              && Inserted(keyFrameList, number) == WrappedNumbers([number])
  {
    assert !t.started ==> t.missing == [] && t.keyFrames == [];
  }

  lemma StillInTime(missing: seq<Missing>, clock: nat, nowMs: nat)
    requires clock <= nowMs && InTime(missing, clock)
    ensures InTime(missing, nowMs) && InTime([], nowMs)
  {
  }

  lemma OlderNumber(top: int, n: int, number: Seq16, lastSeq: Seq16)
    requires SeqLower(number, lastSeq) && lastSeq == Wrap16(top) && n == top - Sub16(lastSeq, number)
    ensures top - 0x8000 <= n < top && number == Wrap16(n)
  {
    WrapAdd(top, n - top);
  }

  /** `find` in the list: the place of the entry with this number, if there is one. */
  lemma FindListed(t: Tracker, n: int, number: Seq16, lastSeq: Seq16)
    requires Sound(t) && SeqLower(number, lastSeq) && lastSeq == Wrap16(t.top) && n == t.top - Sub16(lastSeq, number)
    ensures n < t.top && number == Wrap16(n)
    ensures var at, list := FirstFrom(Numbers(t.missing), n, 0), WrappedList(t.missing);
            && LowerBound(Seqs(list), number, 0) == at
            && (at < |list| ==> (SeqLower(number, list[at].number) <==> t.missing[at].number != n))
  {
    var numbers := Numbers(t.missing);
    assert InWindow(numbers, t.top - 1);
    OlderNumber(t.top, n, number, lastSeq);
    hide Sound, Wrap16, FirstFrom, LowerBound, WrappedNumbers;
    WrappedSlices(t.missing, 0);
    LowerBoundIsFirstFrom(numbers, n, t.top - 1, 0);
    var at := FirstFrom(numbers, n, 0);
    if at < |numbers| {
      UnwrappedOrder(0x8000, n, numbers[at]);
    }
  }

  /** How far a walk over the list has come: what is done of it, what is left, what was asked for. */
  ghost predicate Walked(missing: seq<Missing>, filter: NackFilter, at: Moment, done: seq<Missing>,
                         rest: seq<Missing>, numbers: seq<int>, list: seq<NackInfo>, batch: seq<Seq16>)
  {
    && list == WrappedList(done + rest) && batch == WrappedNumbers(numbers)
    && (forall m | m in rest :: m in missing)
    && AfterBatch(missing, filter, at) == done + AfterBatch(rest, filter, at)
    && Batch(missing, filter, at) == numbers + Batch(rest, filter, at)
  }

  lemma WalkStarts(missing: seq<Missing>, filter: NackFilter, at: Moment)
    ensures Walked(missing, filter, at, [], missing, [], WrappedList(missing), [])
  {
    assert [] + missing == missing;
    assert WrappedNumbers([]) == [];
  }

  lemma WalkEnds(missing: seq<Missing>, filter: NackFilter, at: Moment, done: seq<Missing>,
                 rest: seq<Missing>, numbers: seq<int>, list: seq<NackInfo>, batch: seq<Seq16>)
    requires Walked(missing, filter, at, done, rest, numbers, list, batch) && |rest| == 0
    ensures list == WrappedList(AfterBatch(missing, filter, at))
    ensures batch == WrappedNumbers(Batch(missing, filter, at))
  {
    assert done + rest == done && numbers + [] == numbers;
  }

  lemma Associated<T>(a: seq<T>, b: seq<T>, c: seq<T>)
    ensures a + (b + c) == a + b + c && [] + c == c && a + [] == a
  {
  }

  lemma BatchUnfolds(rest: seq<Missing>, filter: NackFilter, at: Moment)
    requires |rest| > 0
    ensures var m, tail := rest[0], rest[1..];
            && Batch(rest, filter, at) == (if Due(m, filter, at) then [m.number] else []) + Batch(tail, filter, at)
            && AfterBatch(rest, filter, at)
               == (if !Due(m, filter, at) then [m]
                   else if m.retries + 1 >= MAX_NACK_RETRIES then []
                   else [m.(retries := m.retries + 1, sentAtMs := at.nowMs)]) + AfterBatch(tail, filter, at)
  {
  }

  lemma BatchStep(done: seq<Missing>, asked: seq<int>, rest: seq<Missing>, filter: NackFilter, at: Moment)
    requires |rest| > 0
    ensures var m := rest[0];
            if !Due(m, filter, at) then
              && asked + Batch(rest, filter, at) == asked + Batch(rest[1..], filter, at)
              && done + AfterBatch(rest, filter, at) == done + [m] + AfterBatch(rest[1..], filter, at)
            else
              && asked + Batch(rest, filter, at) == asked + [m.number] + Batch(rest[1..], filter, at)
              && done + AfterBatch(rest, filter, at)
                 == done + (if m.retries + 1 >= MAX_NACK_RETRIES then []
                            else [m.(retries := m.retries + 1, sentAtMs := at.nowMs)])
                    + AfterBatch(rest[1..], filter, at)
  {
    BatchUnfolds(rest, filter, at);
    hide Due, Batch, AfterBatch;
    var m := rest[0];
    Associated(asked, [m.number], Batch(rest[1..], filter, at));
    Associated(done, [m], AfterBatch(rest[1..], filter, at));
    Associated(done, [m.(retries := m.retries + 1, sentAtMs := at.nowMs)], AfterBatch(rest[1..], filter, at));
  }

  /** One entry further, whichever way it is dealt with. */
  lemma WalkGoesOn(missing: seq<Missing>, filter: NackFilter, at: Moment, done: seq<Missing>,
                   rest: seq<Missing>, numbers: seq<int>, list: seq<NackInfo>, batch: seq<Seq16>)
    requires Walked(missing, filter, at, done, rest, numbers, list, batch) && |rest| > 0
    ensures rest[0] in missing && list == WrappedList(done + rest)
    ensures var m := rest[0];
            if !Due(m, filter, at) then
              Walked(missing, filter, at, done + [m], rest[1..], numbers, WrappedList(done + [m] + rest[1..]), batch)
            else
              var kept := done + if m.retries + 1 >= MAX_NACK_RETRIES then []
                                 else [m.(retries := m.retries + 1, sentAtMs := at.nowMs)];
              Walked(missing, filter, at, kept, rest[1..], numbers + [m.number], WrappedList(kept + rest[1..]),
                     batch + [Wrap16(m.number)])
  {
    hide Due, WrappedList;
    BatchStep(done, numbers, rest, filter, at);
    assert WrappedNumbers(numbers) + [Wrap16(rest[0].number)] == WrappedNumbers(numbers + [rest[0].number]);
  }

  lemma OneEntry(done: seq<Missing>, rest: seq<Missing>)
    requires |rest| > 0
    ensures var list := WrappedList(done + rest);
            && list[|done|] == Wrapped(rest[0])
            && list[..|done|] + list[|done| + 1..] == WrappedList(done + rest[1..])
  {
  }

  lemma OneUpdated(done: seq<Missing>, rest: seq<Missing>, m: Missing)
    requires |rest| > 0
    ensures WrappedList(done + rest)[|done| := Wrapped(m)] == WrappedList(done + [m] + rest[1..])
    ensures m == rest[0] ==> WrappedList(done + rest) == WrappedList(done + [m] + rest[1..])
  {
    assert m == rest[0] ==> done + rest == done + [m] + rest[1..];
  }

  lemma SmallSize(n: nat)
    requires n <= MAX_NACK_PACKETS
    ensures Wrap16(n) == n
  {
  }

  lemma NothingHeld(end: int)
    ensures WrappedList([]) == [] && InWindow(Numbers([]), end)
  {
  }

  lemma AddPacketsCases(missing: seq<Missing>, keyFrames: seq<int>, first: int, end: int, nowMs: nat)
    requires first <= end
    ensures var recent, added := DropBelow(missing, end - MAX_PACKET_AGE), end - first;
            var (kept, frames) := Shrunk(recent, keyFrames, added);
            AddPackets(missing, keyFrames, first, end, nowMs)
            == if |recent| + added <= MAX_NACK_PACKETS
               then Listing(recent + NewlyMissing(first, end, nowMs), keyFrames, false)
               else if |kept| + added > MAX_NACK_PACKETS then Listing([], frames, true)
               else Listing(kept + NewlyMissing(first, end, nowMs), frames, false)
  {
  }

  lemma WrappedDistance(first: int, end: int)
    requires first <= end < first + 0x1_0000
    ensures Sub16(Wrap16(end), Wrap16(first)) == end - first
  {
  }

  lemma ShrunkStaysBelow(missing: seq<Missing>, keyFrames: seq<int>, added: nat, first: int)
    requires Ascending(Numbers(missing)) && Ascending(keyFrames) && |missing| + added > MAX_NACK_PACKETS
    requires forall k | 0 <= k < |missing| :: missing[k].number < first
    ensures var kept := Shrunk(missing, keyFrames, added).0;
            forall k | 0 <= k < |kept| :: kept[k].number < first
  {
    ShrunkIsFirstFitting(missing, keyFrames, added);
    var i := FirstFitting(missing, keyFrames, added);
    if |keyFrames| > 0 {
      DropKeepsBounds(missing, keyFrames[if i < |keyFrames| then i else i - 1], first);
    }
  }

  lemma NewlyNone(kept: seq<Missing>, first: int, nowMs: nat)
    ensures kept + NewlyMissing(first, first, nowMs) == kept
  {
  }

  lemma NewlyOneMore(kept: seq<Missing>, first: int, n: int, nowMs: nat)
    requires first <= n
    ensures kept + NewlyMissing(first, n, nowMs) + [Missing(n, nowMs, 0, 0)] == kept + NewlyMissing(first, n + 1, nowMs)
  {
  }

  lemma WrapNext(n: int)
    ensures Next16(Wrap16(n)) == Wrap16(n + 1)
  {
  }

  lemma SameWhenWrapped(n: int, end: int)
    requires end - 0x7FFF <= n <= end && Wrap16(n) == Wrap16(end)
    ensures n == end
  {
    UnwrappedOrder(0x8000, n, end);
  }

  lemma ListedInWindow(kept: seq<Missing>, first: int, n: int, end: int, nowMs: nat)
    requires InWindow(Numbers(kept), end) && end - 0x7FFF <= first <= n <= end
    requires forall k | 0 <= k < |kept| :: kept[k].number < first
    ensures var listed := kept + NewlyMissing(first, n, nowMs);
            && InWindow(Numbers(listed), end)
            && forall k | 0 <= k < |listed| :: listed[k].number < n
  {
    var listed := kept + NewlyMissing(first, n, nowMs);
    forall k | 0 <= k < |listed| ensures end - 0x7FFF <= listed[k].number < n {
      if k < |kept| {
        assert Numbers(kept)[k] == kept[k].number;
      }
    }
  }

  class NackGenerator {
    const sendNackDelayMs: nat
    var nackList: seq<NackInfo>
    var keyFrameList: seq<Seq16>
    var started: bool
    var lastSeq: Seq16
    var rtt: nat

    /** The same state with numbers that never wrap, and the latest time read. */
    ghost var tracker: Tracker
    ghost var clock: nat

    /** The record of the run, and whether some of it was at time 0, which the code takes for "never". */
    ghost var notes: seq<Note>
    ghost var atZero: bool

    /** The containers hold these numbers, wrapped. */
    ghost predicate Holds(missing: seq<Missing>, keyFrames: seq<int>, end: int)
      reads this`nackList, this`keyFrameList
    {
      && nackList == WrappedList(missing) && keyFrameList == WrappedNumbers(keyFrames)
      && InWindow(Numbers(missing), end) && InWindow(keyFrames, end)
    }

    /** `RemoveNackItemsUntilKeyFrame`. */
    method RemoveNackItemsUntilKeyFrame(ghost missing: seq<Missing>, ghost keyFrames: seq<int>, ghost end: int)
      returns (found: bool, ghost kept: seq<Missing>, ghost frames: seq<int>)
      requires Holds(missing, keyFrames, end)
      modifies this`nackList, this`keyFrameList
      ensures (kept, frames, found) == UntilKeyFrame(missing, keyFrames)
      ensures Holds(kept, frames, end)
    {
      kept, frames := missing, keyFrames;
      while |keyFrameList| > 0
        invariant Holds(missing, frames, end)
        invariant UntilKeyFrame(missing, frames) == UntilKeyFrame(missing, keyFrames)
        decreases |keyFrameList|
      {
        WrappedSlices(missing, 0);
        LowerBoundIsFirstFrom(Numbers(missing), frames[0], end, 0);
        var it := LowerBound(Seqs(nackList), keyFrameList[0], 0);
        if it != 0 {
          WrappedSlices(missing, it);
          nackList := nackList[it..];
          kept := missing[it..];
          return true, kept, frames;
        }
        assert WrappedNumbers(frames)[1..] == WrappedNumbers(frames[1..]);
        keyFrameList := keyFrameList[1..];
        frames := frames[1..];
      }
      found := false;
    }

    /** The loop that drops old entries while there are too many. */
    method MakeRoom(numNewNacks: nat, ghost missing: seq<Missing>, ghost keyFrames: seq<int>, ghost end: int)
      returns (ghost kept: seq<Missing>, ghost frames: seq<int>)
      requires Holds(missing, keyFrames, end) && |missing| <= MAX_NACK_PACKETS
      modifies this`nackList, this`keyFrameList
      ensures (kept, frames) == Shrunk(missing, keyFrames, numNewNacks)
      ensures Holds(kept, frames, end) && |kept| <= |missing|
    {
      hide UntilKeyFrame, InWindow, WrappedNumbers;
      var found;
      found, kept, frames := RemoveNackItemsUntilKeyFrame(missing, keyFrames, end);
      while found && Wrap16(|nackList|) + numNewNacks > MAX_NACK_PACKETS
        invariant Holds(kept, frames, end) && |kept| <= |missing|
        invariant Shrunk(missing, keyFrames, numNewNacks)
               == if found && |kept| + numNewNacks > MAX_NACK_PACKETS then Shrunk(kept, frames, numNewNacks)
                  else (kept, frames)
        decreases |kept|, found
      {
        found, kept, frames := RemoveNackItemsUntilKeyFrame(kept, frames, end);
      }
    }

    /** Lists the skipped packets one by one. */
    method ListSkipped(seqStart: Seq16, seqEnd: Seq16, nowMs: nat, ghost kept: seq<Missing>,
                       ghost first: int, ghost end: int)
      requires nackList == WrappedList(kept) && InWindow(Numbers(kept), end)
      requires end - 0x7FFF <= first <= end && seqStart == Wrap16(first) && seqEnd == Wrap16(end)
      requires forall k | 0 <= k < |kept| :: kept[k].number < first
      modifies this`nackList
      ensures nackList == WrappedList(kept + NewlyMissing(first, end, nowMs))
      ensures InWindow(Numbers(kept + NewlyMissing(first, end, nowMs)), end)
    {
      NewlyNone(kept, first, nowMs);
      hide NewlyMissing, Emplaced, WrappedList, WrappedNumbers, Numbers, InWindow, Wrap16;
      var number := seqStart;
      ghost var n := first;
      while number != seqEnd
        invariant first <= n <= end && number == Wrap16(n)
        invariant nackList == WrappedList(kept + NewlyMissing(first, n, nowMs))
        decreases end - n
      {
        assert n < end;
        ghost var m := Missing(n, nowMs, 0, 0);
        ListedInWindow(kept, first, n, end, nowMs);
        EmplacedAtEnd(kept + NewlyMissing(first, n, nowMs), m, end);
        NewlyOneMore(kept, first, n, nowMs);
        WrapNext(n);
        nackList := Emplaced(nackList, NackInfo(nowMs, number, number, 0, 0));
        number := Next16(number);
        n := n + 1;
      }
      SameWhenWrapped(n, end);
      ListedInWindow(kept, first, n, end, nowMs);
    }

    /** Drops entries more than MAX_PACKET_AGE behind. */
    method RemoveOld(seqEnd: Seq16, ghost missing: seq<Missing>, ghost end: int) returns (ghost recent: seq<Missing>)
      requires nackList == WrappedList(missing) && InWindow(Numbers(missing), end) && seqEnd == Wrap16(end)
      modifies this`nackList
      ensures recent == DropBelow(missing, end - MAX_PACKET_AGE)
      ensures nackList == WrappedList(recent) && InWindow(Numbers(recent), end)
    {
      WrappedSlices(missing, 0);
      FirstRecent(Numbers(missing), end, seqEnd);
      var it := LowerBound(Seqs(nackList), Wrap16(seqEnd - MAX_PACKET_AGE), 0);
      WrappedSlices(missing, it);
      nackList := nackList[it..];
      recent := missing[it..];
    }

    /** `AddPacketsToNackList`. */
    method AddPacketsToNackList(seqStart: Seq16, seqEnd: Seq16, nowMs: nat, ghost missing: seq<Missing>,
                                ghost keyFrames: seq<int>, ghost first: int, ghost end: int)
      returns (keyFrameRequired: bool, ghost listing: Listing)
      requires Holds(missing, keyFrames, end) && |missing| <= MAX_NACK_PACKETS
      requires Ascending(Numbers(missing)) && FramesUpTo(keyFrames, end)
      requires forall k | 0 <= k < |missing| :: missing[k].number < first
      requires end - 0x7FFF <= first <= end && seqStart == Wrap16(first) && seqEnd == Wrap16(end)
      modifies this`nackList, this`keyFrameList
      ensures listing == AddPackets(missing, keyFrames, first, end, nowMs)
      ensures keyFrameRequired == listing.keyFrameRequired
      ensures Holds(listing.missing, listing.keyFrames, end)
    {
      hide AddPackets, DropBelow, Shrunk, NewlyMissing, WrappedList, WrappedNumbers, Wrap16, InWindow, Ascending;
      ghost var recent := RemoveOld(seqEnd, missing, end);
      DropKeepsBounds(missing, end - MAX_PACKET_AGE, first);
      AddPacketsCases(missing, keyFrames, first, end, nowMs);
      SmallSize(|recent|);
      var numNewNacks := Sub16(seqEnd, seqStart);
      WrappedDistance(first, end);
      ghost var kept, frames := recent, keyFrames;
      if Wrap16(|nackList|) + numNewNacks > MAX_NACK_PACKETS {
        kept, frames := MakeRoom(numNewNacks, recent, keyFrames, end);
        SmallSize(|kept|);
        if Wrap16(|nackList|) + numNewNacks > MAX_NACK_PACKETS {
          nackList := [];
          NothingHeld(end);
          return true, Listing([], frames, true);
        }
        ShrunkStaysBelow(recent, keyFrames, numNewNacks, first);
      }
      ListSkipped(seqStart, seqEnd, nowMs, kept, first, end);
      return false, Listing(kept + NewlyMissing(first, end, nowMs), frames, false);
    }

    ghost function AtTime(nowMs: nat): Moment
      reads this`rtt
    {
      Moment(nowMs, sendNackDelayMs, WaitMs(rtt))
    }

    /** Whether `GetNackBatch` asks for an entry. */
    predicate Wanted(info: NackInfo, filter: NackFilter, nowMs: nat)
      reads this`rtt, this`lastSeq
    {
      if sendNackDelayMs > 0 && Elapsed(nowMs, info.createdAtMs) < sendNackDelayMs then false
      else
        || (filter == BySeq && info.sentAtMs == 0
            && (info.sendAtSeq == lastSeq || SeqHigher(lastSeq, info.sendAtSeq)))
        || (filter == ByTime
            && (info.sentAtMs == 0 || Elapsed(nowMs, info.sentAtMs) >= if rtt > 0 then rtt else DEFAULT_RTT))
    }

    lemma WantedIsDue(m: Missing, filter: NackFilter, nowMs: nat, top: int)
      requires m.createdAtMs <= nowMs && m.sentAtMs <= nowMs
      requires lastSeq == Wrap16(top) && top - 0x7FFF <= m.number <= top
      ensures Wanted(Wrapped(m), filter, nowMs) <==> Due(m, filter, AtTime(nowMs))
    {
      UnwrappedOrder(0x8000, m.number, top);
      ComparatorsAreTotal(0xFFFF, lastSeq, Wrap16(m.number));
    }

    /** One entry of the list: asked for or passed over. */
    method ConsiderEntry(it: nat, filter: NackFilter, nowMs: nat, ghost top: int,
                         ghost done: seq<Missing>, ghost rest: seq<Missing>)
      returns (asked: bool, number: Seq16, next: nat, ghost kept: seq<Missing>)
      requires |rest| > 0 && it == |done| && nackList == WrappedList(done + rest) && lastSeq == Wrap16(top)
      requires var m := rest[0];
               m.createdAtMs <= nowMs && m.sentAtMs <= nowMs && top - 0x7FFF <= m.number <= top
      modifies this`nackList
      ensures number == Wrap16(rest[0].number)
      ensures asked <==> Due(rest[0], filter, AtTime(nowMs))
      ensures kept == done + if !asked then [rest[0]]
                             else if rest[0].retries + 1 >= MAX_NACK_RETRIES then []
                             else [rest[0].(retries := rest[0].retries + 1, sentAtMs := nowMs)]
      ensures next == |kept| && nackList == WrappedList(kept + rest[1..])
    {
      ghost var m := rest[0];
      WantedIsDue(m, filter, nowMs, top);
      OneEntry(done, rest);
      hide Due, WrappedList, Wrap16;
      var info := nackList[it];
      asked, number, next, kept := Wanted(info, filter, nowMs), info.number, it, done;
      if !asked {
        OneUpdated(done, rest, m);
        next, kept := it + 1, done + [m];
        return;
      }
      var retries := info.retries + 1;
      if retries >= MAX_NACK_RETRIES {
        nackList := nackList[..it] + nackList[it + 1..];
      } else {
        ghost var updated := m.(retries := retries, sentAtMs := nowMs);
        OneUpdated(done, rest, updated);
        nackList := nackList[it := info.(retries := retries, sentAtMs := nowMs)];
        next, kept := it + 1, done + [updated];
      }
    }

    /** `GetNackBatch`: walks the list, asks for what is due and drops what was asked for too often. */
    method GetNackBatch(filter: NackFilter, nowMs: nat, ghost missing: seq<Missing>, ghost top: int)
      returns (batch: seq<Seq16>)
      requires nackList == WrappedList(missing) && (|missing| > 0 ==> lastSeq == Wrap16(top))
      requires forall m | m in missing ::
                 m.createdAtMs <= nowMs && m.sentAtMs <= nowMs && top - 0x7FFF <= m.number <= top
      modifies this`nackList
      ensures batch == WrappedNumbers(Batch(missing, filter, AtTime(nowMs)))
      ensures nackList == WrappedList(AfterBatch(missing, filter, AtTime(nowMs)))
    {
      hide Due, Batch, AfterBatch, WrappedList, WrappedNumbers, Walked;
      ghost var at, done, rest, numbers: seq<int> := AtTime(nowMs), [], missing, [];
      WalkStarts(missing, filter, at);
      batch := [];
      var it := 0;
      while it < |nackList|
        invariant it == |done| && |nackList| == it + |rest|
        invariant Walked(missing, filter, at, done, rest, numbers, nackList, batch)
        decreases |rest|
      {
        WalkGoesOn(missing, filter, at, done, rest, numbers, nackList, batch);
        ghost var walked := done;
        var asked, number;
        asked, number, it, done := ConsiderEntry(it, filter, nowMs, top, walked, rest);
        if asked {
          batch := batch + [number];
          numbers := numbers + [rest[0].number];
        }
        rest := rest[1..];
      }
      WalkEnds(missing, filter, at, done, rest, numbers, nackList, batch);
    }

    /** The fields are the tracker's, wrapped. */
    ghost predicate Tracks()
      reads this`nackList, this`keyFrameList, this`started, this`lastSeq, this`tracker, this`clock
    {
      && Sound(tracker)
      && nackList == WrappedList(tracker.missing) && keyFrameList == WrappedNumbers(tracker.keyFrames)
      && started == tracker.started && (started ==> lastSeq == Wrap16(tracker.top))
      && InTime(tracker.missing, clock)
    }

    /** Besides, every request on record was right to be made. */
    ghost predicate Valid()
      reads this
    {
      Tracks() && (atZero || Kept(tracker, notes))
    }

    /** No packet is asked for more than ten times, nor too early, nor once it has arrived; and none that
        has arrived is listed. */
    lemma RequestsAreRight()
      requires Valid() && !atZero
      ensures Timely(notes) && forall u :: TimesAsked(notes, u) <= 10
      ensures |nackList| <= 1000 && forall m | m in tracker.missing :: !HasArrived(notes, m.number)
    {
      KeptIsRight(tracker, notes);
    }

    /** The timer asks for an entry listed for the delay and never asked for, or last a round trip ago, or
        100 ms ago while no round-trip time is known. */
    lemma TimerAsksFor(m: Missing, nowMs: nat)
      requires Tracks() && m in tracker.missing
      ensures m.number in Tick(tracker, AtTime(nowMs)).asked
              <==> && (sendNackDelayMs > 0 ==> nowMs - m.createdAtMs >= sendNackDelayMs)
                   && (m.sentAtMs == 0 || nowMs - m.sentAtMs >= if rtt > 0 then rtt else 100)
    {
      TimerAsksExactly(tracker, m, AtTime(nowMs));
    }

    constructor (sendNackDelayMs: nat)
      ensures Valid() && tracker == Tracker(false, 0, [], []) && clock == 0 && rtt == DEFAULT_RTT
      ensures this.sendNackDelayMs == sendNackDelayMs && notes == [] && !atZero
    {
      NothingKept();
      this.sendNackDelayMs := sendNackDelayMs;
      nackList, keyFrameList, started, lastSeq, rtt := [], [], false, 0, DEFAULT_RTT;
      tracker, clock, notes, atZero := Tracker(false, 0, [], []), 0, [], false;
    }

    method Reset()
      requires Valid()
      modifies this
      ensures Valid() && tracker == Tracker(false, 0, [], []) && clock == old(clock) && rtt == old(rtt)
      ensures notes == [] && !atZero
    {
      NothingKept();
      nackList, keyFrameList, started, lastSeq := [], [], false, 0;
      tracker, notes, atZero := Tracker(false, 0, [], []), [], false;
    }

    method UpdateRtt(rtt: nat)
      requires Valid()
      modifies this`rtt
      ensures Valid() && this.rtt == rtt
    {
      this.rtt := rtt;
    }

    /** The number a packet has if it is within half a circle of the highest one. */
    ghost function NumberOf(number: Seq16): int
      reads this`started, this`lastSeq, this`tracker
    {
      if !started then number
      else if SeqLower(number, lastSeq) then tracker.top - Sub16(lastSeq, number)
      else tracker.top + Sub16(number, lastSeq)
    }

    /** Takes an older packet off the list. */
    method ForgetPacket(number: Seq16) returns (found: bool)
      requires Tracks() && started && SeqLower(number, lastSeq)
      modifies this`nackList, this`tracker
      ensures Tracks()
      ensures Outcome(tracker, found, [], false)
           == Receive(old(tracker), old(NumberOf(number)), AtTime(clock))
    {
      ghost var t, n := tracker, NumberOf(number);
      FindListed(t, n, number, lastSeq);
      ReceiveOlder(t, n, AtTime(clock));
      hide Receive, Wrap16, SeqLower, Sound, WrappedNumbers, FirstFrom, LowerBound, Seqs, Numbers;
      var at := LowerBound(Seqs(nackList), number, 0);
      found := false;
      if at < |nackList| && !SeqLower(number, nackList[at].number) {
        Erased(t, at, clock);
        hide WrappedList;
        found := nackList[at].retries != 0;
        nackList := nackList[..at] + nackList[at + 1..];
        tracker := t.(missing := t.missing[..at] + t.missing[at + 1..]);
      }
    }

    /** Puts a newer packet's number into the key frames and takes the old ones out. */
    method NoteKeyFrame(number: Seq16, ghost t: Tracker, ghost n: int) returns (ghost frames: seq<int>)
      requires Sound(t) && keyFrameList == WrappedNumbers(t.keyFrames) && number == Wrap16(n)
      requires t.top < n <= t.top + MAX_JUMP
      modifies this`keyFrameList
      ensures frames == FramesWith(t.keyFrames, n)
      ensures keyFrameList == WrappedNumbers(frames) && InWindow(frames, n) && FramesUpTo(frames, n)
    {
      NotedKeyFrames(t, n, number, keyFrameList);
      hide Inserted, LowerBound, Wrap16, FirstFrom, WrappedNumbers, FramesWith, FramesUpTo, Sound, InWindow;
      keyFrameList := Inserted(keyFrameList, number);
      var it := LowerBound(keyFrameList, Wrap16(number - MAX_PACKET_AGE), 0);
      keyFrameList := keyFrameList[it..];
      frames := FramesWith(t.keyFrames, n);
    }

    /** Lists what a newer packet skipped. */
    method ListUpTo(number: Seq16, nowMs: nat, ghost t: Tracker, ghost n: int)
      returns (keyFrameRequired: bool, ghost listing: Listing)
      requires Sound(t) && t.top < n <= t.top + MAX_JUMP
      requires nackList == WrappedList(t.missing) && keyFrameList == WrappedNumbers(t.keyFrames)
      requires number == Wrap16(n) && Next16(lastSeq) == Wrap16(t.top + 1)
      modifies this`nackList, this`keyFrameList, this`lastSeq
      ensures listing == Extended(t, n, nowMs) && keyFrameRequired == listing.keyFrameRequired
      ensures nackList == WrappedList(listing.missing) && keyFrameList == WrappedNumbers(listing.keyFrames)
      ensures lastSeq == number
    {
      hide Sound, AddPackets, FramesWith, FramesUpTo, WrappedList, WrappedNumbers, Wrap16, Next16, Numbers, Ascending,
        InWindow;
      NewerInWindow(t, n);
      ghost var frames := NoteKeyFrame(number, t, n);
      assert Holds(t.missing, frames, n);
      keyFrameRequired, listing :=
        AddPacketsToNackList(Next16(lastSeq), number, nowMs, t.missing, frames, t.top + 1, n);
      lastSeq := number;
    }

    /** A packet newer than any before: lists what it skipped and asks for what is due. */
    method TrackNewer(number: Seq16, nowMs: nat) returns (asked: seq<Seq16>, keyFrameRequired: bool)
      requires Tracks() && clock <= nowMs && started && number != lastSeq && !SeqLower(number, lastSeq)
      requires Sub16(number, lastSeq) <= MAX_JUMP
      modifies this`nackList, this`keyFrameList, this`lastSeq, this`tracker, this`clock
      ensures Tracks() && clock == nowMs && started && lastSeq == number
      ensures var o := Receive(old(tracker), old(NumberOf(number)), AtTime(nowMs));
              && tracker == o.next && !o.found
              && asked == WrappedNumbers(o.asked) && keyFrameRequired == o.keyFrameRequired
    {
      ghost var t, n := tracker, NumberOf(number);
      NewerNumber(t, number, lastSeq);
      NewerIsSound(t, n, nowMs, clock, AtTime(nowMs));
      hide Receive, Extended, Sound, Batch, AfterBatch, WrappedList, WrappedNumbers, Wrap16, Sub16;
      ghost var listing;
      keyFrameRequired, listing := ListUpTo(number, nowMs, t, n);
      asked := GetNackBatch(BySeq, nowMs, listing.missing, n);
      tracker := Receive(t, n, AtTime(nowMs)).next;
      clock := nowMs;
    }

    /** Any packet, by where its number lies. */
    method Track(number: Seq16, nowMs: nat) returns (found: bool, asked: seq<Seq16>, keyFrameRequired: bool)
      requires Tracks() && clock <= nowMs
      requires started && !SeqLower(number, lastSeq) ==> Sub16(number, lastSeq) <= MAX_JUMP
      modifies this`nackList, this`keyFrameList, this`started, this`lastSeq, this`tracker, this`clock
      ensures Tracks() && clock == nowMs
      ensures started && lastSeq == if old(started) && SeqLower(number, old(lastSeq)) then old(lastSeq) else number
      ensures var o := Receive(old(tracker), old(NumberOf(number)), AtTime(nowMs));
              && tracker == o.next && found == o.found
              && asked == WrappedNumbers(o.asked) && keyFrameRequired == o.keyFrameRequired
    {
      found, asked, keyFrameRequired := false, [], false;
      FirstOrSame(tracker, number, lastSeq, keyFrameList, AtTime(nowMs));
      StillInTime(tracker.missing, clock, nowMs);
      hide Receive, Sound, InTime, WrappedList, WrappedNumbers, Wrap16, SeqLower, Sub16;
      if !started {
        started, lastSeq := true, number;
        keyFrameList := Inserted(keyFrameList, number);
        tracker := Tracker(true, number, [], [number]);
        clock := nowMs;
      } else if number == lastSeq {
        clock := nowMs;
      } else if SeqLower(number, lastSeq) {
        clock := nowMs;
        found := ForgetPacket(number);
      } else {
        asked, keyFrameRequired := TrackNewer(number, nowMs);
      }
    }

    /** Takes down what a step did. */
    ghost method TakeNotes(t: Tracker, event: Event, at: Moment)
      requires Tracks() && tracker == Step(t, event, at).0 && (atZero || Kept(t, notes))
      modifies this`notes, this`atZero
      ensures Valid() && notes == old(notes) + Step(t, event, at).1 && (atZero <==> old(atZero) || at.nowMs == 0)
    {
      hide Kept, Step;
      if !atZero && at.nowMs > 0 {
        StepKeeps(t, notes, event, at);
      }
      notes, atZero := notes + Step(t, event, at).1, atZero || at.nowMs == 0;
    }

    /** `ReceivePacket` of a packet that was not recovered: whether it was asked for and now found, and
        what the listener is asked for. */
    method ReceivePacket(number: Seq16, nowMs: nat)
      returns (found: bool, asked: seq<Seq16>, keyFrameRequired: bool)
      requires Valid() && clock <= nowMs
      requires started && !SeqLower(number, lastSeq) ==> Sub16(number, lastSeq) <= MAX_JUMP
      modifies this
      ensures Valid() && clock == nowMs && rtt == old(rtt)
      ensures started && lastSeq == if old(started) && SeqLower(number, old(lastSeq)) then old(lastSeq) else number
      ensures var o := Receive(old(tracker), old(NumberOf(number)), AtTime(nowMs));
              && tracker == o.next && found == o.found
              && asked == WrappedNumbers(o.asked) && keyFrameRequired == o.keyFrameRequired
      ensures notes == old(notes) + Step(old(tracker), Packet(old(NumberOf(number))), AtTime(nowMs)).1
      ensures atZero <==> old(atZero) || nowMs == 0
    {
      ghost var t, n, at := tracker, NumberOf(number), AtTime(nowMs);
      hide Tracks, Kept, Step, Receive;
      found, asked, keyFrameRequired := Track(number, nowMs);
      StepGoes(t, n, at);
      TakeNotes(t, Packet(n), at);
    }

    /** The batch of the timer. */
    method TrackTimer(nowMs: nat) returns (asked: seq<Seq16>)
      requires Tracks() && clock <= nowMs
      modifies this`nackList, this`tracker, this`clock
      ensures Tracks() && clock == nowMs
      ensures var o := Tick(old(tracker), AtTime(nowMs));
              tracker == o.next && asked == WrappedNumbers(o.asked)
    {
      MissingInWindow(tracker);
      AfterBatchIsSound(tracker, ByTime, AtTime(nowMs));
      AfterBatchInTime(tracker.missing, ByTime, AtTime(nowMs), nowMs);
      hide Sound, Batch, AfterBatch, WrappedList, WrappedNumbers;
      asked := GetNackBatch(ByTime, nowMs, tracker.missing, tracker.top);
      tracker := tracker.(missing := AfterBatch(tracker.missing, ByTime, AtTime(nowMs)));
      clock := nowMs;
    }

    /** `OnTimer`: asks for what was asked for too long ago or not at all. */
    method OnTimer(nowMs: nat) returns (asked: seq<Seq16>)
      requires Valid() && clock <= nowMs
      modifies this`nackList, this`tracker, this`clock, this`notes, this`atZero
      ensures Valid() && clock == nowMs
      ensures var o := Tick(old(tracker), AtTime(nowMs));
              tracker == o.next && asked == WrappedNumbers(o.asked)
      ensures notes == old(notes) + Step(old(tracker), Timer, AtTime(nowMs)).1
      ensures atZero <==> old(atZero) || nowMs == 0
    {
      ghost var t, at := tracker, AtTime(nowMs);
      hide Tracks, Kept, Step, Tick;
      asked := TrackTimer(nowMs);
      StepGoes(t, 0, at);
      TakeNotes(t, Timer, at);
    }
  }
}

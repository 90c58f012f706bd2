/** Answering a NACK from the retransmission buffer. */
module RtpStreamSender {
  import opened SeqArithmetic
  import opened Words
  import opened NackBitmask
  import opened RetransmissionBuffer

  const MAX_REQUESTED_PACKETS := 17
  const DEFAULT_RTT_MS := 100

  type Time64 = x: int | 0 <= x < 0x1_0000_0000_0000_0000

  /** One pair of a generic NACK, in host byte order. */
  datatype NackItem = NackItem(packetId: Seq16, lostPacketBitmask: Seq16)

  /** Never resent, or resent more than a round trip ago. */
  predicate Due(item: Item, nowMs: Time64, rtt: nat)
    reads item
  {
    item.resentAtMs == 0 || Elapsed(nowMs, item.resentAtMs) > rtt
  }

  /** The stored items among the given numbers that belong to `due`, in the order asked. */
  function Resendable(slots: Slots, numbers: seq<Seq16>, due: set<Item>): seq<Item>
    requires |slots| > 0 ==> slots[0] != null
  {
    if |numbers| == 0 then []
    else
      var item := GetSlot(slots, numbers[0]);
      (if item != null && item in due then [item] else []) + Resendable(slots, numbers[1..], due)
  }

  /** What `Get` returns for a number carries that number. */
  lemma GetSlotHasNumber(slots: Slots, number: Seq16)
    requires WellFormed(slots) && GetSlot(slots, number) != null
    ensures GetSlot(slots, number).sequenceNumber == number
    ensures GetSlot(slots, number) in slots
  {
  }

  /** With distinct numbers no item is chosen twice, and each chosen item carries a number asked. */
  lemma {:induction false} ResendableDistinct(slots: Slots, numbers: seq<Seq16>, due: set<Item>)
    requires WellFormed(slots) && forall j, k | 0 <= j < k < |numbers| :: numbers[j] != numbers[k]
    ensures var r := Resendable(slots, numbers, due);
            && |r| <= |numbers|
            && (forall item | item in r :: item in slots && item in due && item.sequenceNumber in numbers)
            && (forall j, k | 0 <= j < k < |r| :: r[j] != r[k])
  {
    if |numbers| > 0 {
      ResendableDistinct(slots, numbers[1..], due);
      var rest := Resendable(slots, numbers[1..], due);
      var item := GetSlot(slots, numbers[0]);
      if item != null {
        GetSlotHasNumber(slots, numbers[0]);
        assert item !in rest;
      }
    }
  }

  /** Exactly the due items that `Get` finds under a number asked. */
  lemma {:induction false} ResendableExactly(slots: Slots, numbers: seq<Seq16>, due: set<Item>, item: Item)
    requires WellFormed(slots)
    ensures item in Resendable(slots, numbers, due)
            <==> item in due && item.sequenceNumber in numbers && GetSlot(slots, item.sequenceNumber) == item
  {
    if |numbers| > 0 {
      ResendableExactly(slots, numbers[1..], due, item);
      assert item.sequenceNumber in numbers
             <==> item.sequenceNumber == numbers[0] || item.sequenceNumber in numbers[1..];
      if GetSlot(slots, numbers[0]) == item {
        GetSlotHasNumber(slots, numbers[0]);
      }
    }
  }

  lemma {:induction false} ResendableAppend(slots: Slots, numbers: seq<Seq16>, last: Seq16, due: set<Item>)
    requires |slots| > 0 ==> slots[0] != null
    ensures Resendable(slots, numbers + [last], due)
            == Resendable(slots, numbers, due) + Resendable(slots, [last], due)
  {
    if |numbers| == 0 {
      assert numbers + [last] == [last];
    } else {
      assert (numbers + [last])[1..] == numbers[1..] + [last];
      ResendableAppend(slots, numbers[1..], last, due);
    }
  }

  /** One more requested number: its item, if due, comes next, and it was not chosen before. */
  lemma ResendableStep(slots: Slots, all: seq<Seq16>, k: nat, due: set<Item>)
    requires WellFormed(slots) && k < |all|
    requires forall i, j | 0 <= i < j < |all| :: all[i] != all[j]
    ensures var item := GetSlot(slots, all[k]);
            && Resendable(slots, all[..k + 1], due)
               == Resendable(slots, all[..k], due) + (if item != null && item in due then [item] else [])
            && (item != null ==> item in slots)
            && forall chosen | chosen in Resendable(slots, all[..k], due) :: chosen in slots && chosen != item
  {
    assert all[..k + 1] == all[..k] + [all[k]];
    ResendableAppend(slots, all[..k], all[k], due);
    ResendableDistinct(slots, all[..k], due);
    if GetSlot(slots, all[k]) != null {
      GetSlotHasNumber(slots, all[k]);
    }
  }

  /** The stored packet with the header fields the item remembers for it. */
  function Restored(item: Item): RtpPacket {
    item.rtpPacket.(ssrc := item.ssrc, sequenceNumber := item.sequenceNumber, timestamp := item.timestamp)
  }

  /** Packets with the header fields the items remember and the payloads they hold, in order. */
  ghost predicate PacketsOf(packets: seq<RtpPacket>, items: seq<Item>) {
    && |packets| == |items|
    && forall k | 0 <= k < |items| ::
         && packets[k].ssrc == items[k].ssrc && packets[k].sequenceNumber == items[k].sequenceNumber
         && packets[k].timestamp == items[k].timestamp && packets[k].payload == items[k].rtpPacket.payload
  }

  ghost predicate NoRepeat(items: seq<Item>) {
    forall j, k | 0 <= j < k < |items| :: items[j] != items[k]
  }

  function NumbersOf(pair: NackItem): seq<Seq16> {
    Requested(pair.packetId, pair.lostPacketBitmask)
  }

  /** The resend fields of an item. */
  datatype Mark = Mark(resentAtMs: nat, sentTimes: nat)

  ghost function MarksOf(slots: Slots): map<Item, Mark>
    reads slots
  {
    map item: Item | item in slots :: Mark(item.resentAtMs, item.sentTimes)
  }

  function DueAt(marks: map<Item, Mark>, nowMs: Time64, rtt: nat): set<Item> {
    set item | item in marks && (marks[item].resentAtMs == 0 || Elapsed(nowMs, marks[item].resentAtMs) > rtt)
  }

  function Sent(marks: map<Item, Mark>, items: seq<Item>, nowMs: Time64): map<Item, Mark> {
    map item | item in marks ::
      if item in items then Mark(nowMs, (marks[item].sentTimes + 1) % 256) else marks[item]
  }

  lemma SentNothing(marks: map<Item, Mark>, nowMs: Time64)
    ensures Sent(marks, [], nowMs) == marks
  {
  }

  /** Two batches sent at one time, with nothing in both, are one batch. */
  lemma SentTogether(marks: map<Item, Mark>, a: seq<Item>, b: seq<Item>, nowMs: Time64)
    requires forall item | item in b :: item !in a
    ensures Sent(Sent(marks, a, nowMs), b, nowMs) == Sent(marks, a + b, nowMs)
  {
  }

  /** An item not sent yet is due by its fields exactly if it was by its mark. */
  lemma DueByMark(slots: Slots, item: Item?, before: map<Item, Mark>, sent: seq<Item>, nowMs: Time64, rtt: nat)
    requires MarksOf(slots) == Sent(before, sent, nowMs)
    ensures item != null && item in slots && item !in sent ==>
              (Due(item, nowMs, rtt) <==> item in DueAt(before, nowMs, rtt))
  {
    if item != null && item in slots && item !in sent {
      assert item in MarksOf(slots) && MarksOf(slots)[item] == before[item];
    }
  }

  /** What one pair makes the sender send again. */
  function Answer(slots: Slots, pair: NackItem, nowMs: Time64, rtt: nat, marks: map<Item, Mark>): seq<Item>
    requires |slots| > 0 ==> slots[0] != null
  {
    Resendable(slots, NumbersOf(pair), DueAt(marks, nowMs, rtt))
  }

  /** What the pairs of a NACK packet make it send, each at its time, and the marks this leaves. */
  function Answers(slots: Slots, nackItems: seq<NackItem>, times: seq<Time64>, rtt: nat, marks: map<Item, Mark>)
    : (seq<Item>, map<Item, Mark>)
    requires |slots| > 0 ==> slots[0] != null
    requires |times| == |nackItems|
  {
    if |nackItems| == 0 then ([], marks)
    else
      var first := Answer(slots, nackItems[0], times[0], rtt, marks);
      var (rest, left) := Answers(slots, nackItems[1..], times[1..], rtt, Sent(marks, first, times[0]));
      (first + rest, left)
  }

  ghost predicate Asked(nackItems: seq<NackItem>, number: Seq16) {
    exists k | 0 <= k < |nackItems| :: number in NumbersOf(nackItems[k])
  }

  lemma NumbersAreFew(pair: NackItem)
    ensures |NumbersOf(pair)| <= 17
    ensures forall j, k | 0 <= j < k < |NumbersOf(pair)| :: NumbersOf(pair)[j] != NumbersOf(pair)[k]
  {
    RequestedIsBrief(pair.packetId, pair.lostPacketBitmask);
  }

  /** What was sent is not due again at the same time; for the rest nothing changed. */
  lemma SentIsNotDue(marks: map<Item, Mark>, items: seq<Item>, nowMs: Time64, rtt: nat)
    requires nowMs > 0
    ensures forall item :: item in DueAt(Sent(marks, items, nowMs), nowMs, rtt)
                           <==> item in DueAt(marks, nowMs, rtt) && item !in items
  {
  }

  lemma AskedByFirstOrRest(nackItems: seq<NackItem>, number: Seq16)
    requires |nackItems| > 0
    ensures Asked(nackItems, number) <==> number in NumbersOf(nackItems[0]) || Asked(nackItems[1..], number)
  {
    hide NumbersOf;
    if Asked(nackItems[1..], number) {
      var k :| 0 <= k < |nackItems[1..]| && number in NumbersOf(nackItems[1..][k]);
      assert nackItems[k + 1] == nackItems[1..][k];
    }
    if Asked(nackItems, number) {
      var k :| 0 <= k < |nackItems| && number in NumbersOf(nackItems[k]);
      assert k > 0 ==> nackItems[1..][k - 1] == nackItems[k];
    }
  }

  lemma AppendDistinct(a: seq<Item>, b: seq<Item>)
    requires NoRepeat(a) && NoRepeat(b) && forall item | item in b :: item !in a
    ensures NoRepeat(a + b)
  {
    forall j, k | 0 <= j < k < |a + b|
      ensures (a + b)[j] != (a + b)[k]
    {
      if k >= |a| {
        assert (a + b)[k] == b[k - |a|];
        assert if j >= |a| then (a + b)[j] == b[j - |a|] else (a + b)[j] in a;
      }
    }
  }

  lemma NothingRepeats()
    ensures NoRepeat([])
  {
  }

  lemma {:induction false} AnswersByNumber(slots: Slots, nackItems: seq<NackItem>, times: seq<Time64>, rtt: nat,
                                           marks: map<Item, Mark>, nowMs: Time64)
    requires WellFormed(slots) && |times| == |nackItems| && nowMs > 0
    requires forall k | 0 <= k < |times| :: times[k] == nowMs
    ensures var answers := Answers(slots, nackItems, times, rtt, marks).0;
            && NoRepeat(answers)
            && forall item :: item in answers <==>
                 && item in DueAt(marks, nowMs, rtt)
                 && GetSlot(slots, item.sequenceNumber) == item && Asked(nackItems, item.sequenceNumber)
  {
    hide GetSlot, Resendable, DueAt, Sent, NumbersOf, NoRepeat;
    if |nackItems| == 0 {
      NothingRepeats();
    } else {
      var numbers, due := NumbersOf(nackItems[0]), DueAt(marks, nowMs, rtt);
      var first := Answer(slots, nackItems[0], nowMs, rtt, marks);
      var after := Sent(marks, first, nowMs);
      NumbersAreFew(nackItems[0]);
      ResendableDistinct(slots, numbers, due);
      AnswersByNumber(slots, nackItems[1..], times[1..], rtt, after, nowMs);
      SentIsNotDue(marks, first, nowMs, rtt);
      AppendDistinct(first, Answers(slots, nackItems[1..], times[1..], rtt, after).0);
      forall item: Item
        ensures item in Answers(slots, nackItems, times, rtt, marks).0 <==>
          item in due && GetSlot(slots, item.sequenceNumber) == item && Asked(nackItems, item.sequenceNumber)
      {
        ResendableExactly(slots, numbers, due, item);
        AskedByFirstOrRest(nackItems, item.sequenceNumber);
      }
    }
  }

  /** What the pairs ask for, by the bits of their masks. */
  lemma AskedByBits(nackItems: seq<NackItem>, number: Seq16)
    ensures Asked(nackItems, number)
            <==> exists pair | pair in nackItems ::
                   number == pair.packetId || Bit(pair.lostPacketBitmask, Sub16(Sub16(number, pair.packetId), 1))
  {
    hide Requested, Bit, Sub16;
    forall k | 0 <= k < |nackItems|
      ensures var pair := nackItems[k];
              number in NumbersOf(pair)
              <==> number == pair.packetId || Bit(pair.lostPacketBitmask, Sub16(Sub16(number, pair.packetId), 1))
    {
      RequestedExactly(nackItems[k].packetId, nackItems[k].lostPacketBitmask, number);
    }
    if Asked(nackItems, number) {
      var k :| 0 <= k < |nackItems| && number in NumbersOf(nackItems[k]);
      assert nackItems[k] in nackItems;
    }
  }

  /** At one reading of a running clock exactly these items are sent again, each once: those never sent again
      or last sent more than a round trip ago that `Get` finds under the number of some pair, or under a
      number 1 + k past it whose bit k is set. */
  lemma AnswersExactly(slots: Slots, nackItems: seq<NackItem>, times: seq<Time64>, rtt: nat,
                       marks: map<Item, Mark>, nowMs: Time64)
    requires WellFormed(slots) && |times| == |nackItems| && nowMs > 0
    requires forall k | 0 <= k < |times| :: times[k] == nowMs
    ensures var answers := Answers(slots, nackItems, times, rtt, marks).0;
            && (forall j, k | 0 <= j < k < |answers| :: answers[j] != answers[k])
            && forall item: Item :: item in answers <==>
                 && item in marks && GetSlot(slots, item.sequenceNumber) == item
                 && (marks[item].resentAtMs == 0
                     || nowMs - marks[item].resentAtMs > rtt
                     || (nowMs < marks[item].resentAtMs
                         && nowMs - marks[item].resentAtMs + 0x1_0000_0000_0000_0000 > rtt))
                 && exists pair | pair in nackItems ::
                      || item.sequenceNumber == pair.packetId
                      || Bit(pair.lostPacketBitmask, Sub16(Sub16(item.sequenceNumber, pair.packetId), 1))
  {
    AnswersByNumber(slots, nackItems, times, rtt, marks, nowMs);
    hide Answers, GetSlot, Asked, Bit, Sub16;
    forall item: Item
      ensures Asked(nackItems, item.sequenceNumber)
              <==> exists pair | pair in nackItems ::
                     || item.sequenceNumber == pair.packetId
                     || Bit(pair.lostPacketBitmask, Sub16(Sub16(item.sequenceNumber, pair.packetId), 1))
    {
      AskedByBits(nackItems, item.sequenceNumber);
    }
  }

  /** The answer to the k-th pair of a NACK packet. */
  function Turn(slots: Slots, nackItems: seq<NackItem>, times: seq<Time64>, rtt: nat, marks: map<Item, Mark>, k: nat)
    : seq<Item>
    requires |slots| > 0 ==> slots[0] != null
    requires |times| == |nackItems| && k < |nackItems|
    decreases k
  {
    var first := Answer(slots, nackItems[0], times[0], rtt, marks);
    if k == 0 then first
    else Turn(slots, nackItems[1..], times[1..], rtt, Sent(marks, first, times[0]), k - 1)
  }

  ghost predicate InSomeTurn(slots: Slots, nackItems: seq<NackItem>, times: seq<Time64>, rtt: nat,
                             marks: map<Item, Mark>, item: Item)
    requires |slots| > 0 ==> slots[0] != null
    requires |times| == |nackItems|
  {
    exists k: nat | k < |nackItems| :: item in Turn(slots, nackItems, times, rtt, marks, k)
  }

  lemma FirstTurnOrLater(slots: Slots, nackItems: seq<NackItem>, times: seq<Time64>, rtt: nat,
                         marks: map<Item, Mark>, item: Item)
    requires WellFormed(slots) && |times| == |nackItems| > 0
    ensures var first := Answer(slots, nackItems[0], times[0], rtt, marks);
            InSomeTurn(slots, nackItems, times, rtt, marks, item)
            <==> item in first || InSomeTurn(slots, nackItems[1..], times[1..], rtt, Sent(marks, first, times[0]), item)
  {
    hide Answer, Sent;
    var first := Answer(slots, nackItems[0], times[0], rtt, marks);
    var after := Sent(marks, first, times[0]);
    assert Turn(slots, nackItems, times, rtt, marks, 0) == first;
    forall k: nat | 0 < k < |nackItems|
      ensures Turn(slots, nackItems, times, rtt, marks, k) == Turn(slots, nackItems[1..], times[1..], rtt, after, k - 1)
    {
    }
    if InSomeTurn(slots, nackItems[1..], times[1..], rtt, after, item) {
      var k: nat :| k < |nackItems[1..]| && item in Turn(slots, nackItems[1..], times[1..], rtt, after, k);
      assert item in Turn(slots, nackItems, times, rtt, marks, k + 1);
    }
  }

  /** The answers to a NACK packet are those to its pairs. */
  lemma {:induction false} AnswersAreTurns(slots: Slots, nackItems: seq<NackItem>, times: seq<Time64>, rtt: nat,
                                           marks: map<Item, Mark>, item: Item)
    requires WellFormed(slots) && |times| == |nackItems|
    ensures item in Answers(slots, nackItems, times, rtt, marks).0
            <==> InSomeTurn(slots, nackItems, times, rtt, marks, item)
  {
    if |nackItems| > 0 {
      hide Answer, Sent, InSomeTurn;
      var first := Answer(slots, nackItems[0], times[0], rtt, marks);
      AnswersAreTurns(slots, nackItems[1..], times[1..], rtt, Sent(marks, first, times[0]), item);
      FirstTurnOrLater(slots, nackItems, times, rtt, marks, item);
    }
  }

  predicate NotBefore(times: seq<Time64>, from: nat) {
    forall k | 0 <= k < |times| :: from <= times[k] && forall j | 0 <= j < k :: times[j] <= times[k]
  }

  lemma {:induction false} AnswersLongAfter(slots: Slots, nackItems: seq<NackItem>, times: seq<Time64>, rtt: nat,
                                            marks: map<Item, Mark>, item: Item, k: nat)
    requires WellFormed(slots) && |times| == |nackItems| && k < |nackItems|
    requires item in marks && marks[item].resentAtMs > 0 && NotBefore(times, marks[item].resentAtMs)
    requires item in Turn(slots, nackItems, times, rtt, marks, k)
    ensures times[k] - marks[item].resentAtMs > rtt
    decreases k
  {
    hide GetSlot, Resendable, NumbersOf;
    var first := Answer(slots, nackItems[0], times[0], rtt, marks);
    ResendableExactly(slots, NumbersOf(nackItems[0]), DueAt(marks, times[0], rtt), item);
    if k > 0 {
      assert forall j | 0 <= j < |times[1..]| :: times[1..][j] == times[j + 1];
      AnswersLongAfter(slots, nackItems[1..], times[1..], rtt, Sent(marks, first, times[0]), item, k - 1);
    }
  }

  lemma DueAreMarked(marks: map<Item, Mark>, nowMs: Time64, rtt: nat, item: Item)
    requires item in DueAt(marks, nowMs, rtt)
    ensures item in marks
  {
  }

  /** Within one NACK packet, too, an item is sent again only more than a round trip later. */
  lemma {:induction false} AnswersApart(slots: Slots, nackItems: seq<NackItem>, times: seq<Time64>, rtt: nat,
                                        marks: map<Item, Mark>, item: Item, j: nat, k: nat)
    requires WellFormed(slots) && |times| == |nackItems| && j < k < |nackItems| && NotBefore(times, 1)
    requires item in Turn(slots, nackItems, times, rtt, marks, j)
    requires item in Turn(slots, nackItems, times, rtt, marks, k)
    ensures times[k] - times[j] > rtt
    decreases j
  {
    hide GetSlot, Resendable, NumbersOf, DueAt;
    var first := Answer(slots, nackItems[0], times[0], rtt, marks);
    var after := Sent(marks, first, times[0]);
    assert forall j | 0 <= j < |times[1..]| :: times[1..][j] == times[j + 1];
    if j == 0 {
      ResendableExactly(slots, NumbersOf(nackItems[0]), DueAt(marks, times[0], rtt), item);
      DueAreMarked(marks, times[0], rtt, item);
      AnswersLongAfter(slots, nackItems[1..], times[1..], rtt, after, item, k - 1);
    } else {
      AnswersApart(slots, nackItems[1..], times[1..], rtt, after, item, j - 1, k - 1);
    }
  }

  /** How many numbers the pairs of a NACK packet ask for. */
  function TotalRequested(nackItems: seq<NackItem>): nat {
    if |nackItems| == 0 then 0
    else |NumbersOf(nackItems[0])| + TotalRequested(nackItems[1..])
  }

  /** What n pairs were answered with, and the marks they left, lead on to the answer to all of them. */
  ghost predicate SoFar(slots: Slots, nackItems: seq<NackItem>, times: seq<Time64>, rtt: nat, before: map<Item, Mark>,
                        n: nat, answered: seq<Item>, marks: map<Item, Mark>)
    requires |slots| > 0 ==> slots[0] != null
  {
    && |times| == |nackItems| && n <= |nackItems|
    && var (rest, left) := Answers(slots, nackItems[n..], times[n..], rtt, marks);
       (answered + rest, left) == Answers(slots, nackItems, times, rtt, before)
  }

  lemma AnswersStart(slots: Slots, nackItems: seq<NackItem>, times: seq<Time64>, rtt: nat, before: map<Item, Mark>)
    requires WellFormed(slots) && |times| == |nackItems|
    ensures SoFar(slots, nackItems, times, rtt, before, 0, [], before)
  {
    var rest := Answers(slots, nackItems, times, rtt, before).0;
    assert nackItems[0..] == nackItems && times[0..] == times && [] + rest == rest;
  }

  lemma AnswersStep(slots: Slots, nackItems: seq<NackItem>, times: seq<Time64>, rtt: nat, before: map<Item, Mark>,
                    n: nat, answered: seq<Item>, marks: map<Item, Mark>)
    requires WellFormed(slots) && n < |nackItems| && SoFar(slots, nackItems, times, rtt, before, n, answered, marks)
    ensures var first := Answer(slots, nackItems[n], times[n], rtt, marks);
            SoFar(slots, nackItems, times, rtt, before, n + 1, answered + first, Sent(marks, first, times[n]))
    ensures TotalRequested(nackItems[n..]) == |NumbersOf(nackItems[n])| + TotalRequested(nackItems[n + 1..])
  {
    hide Answer, Sent, NumbersOf;
    var first := Answer(slots, nackItems[n], times[n], rtt, marks);
    var rest := Answers(slots, nackItems[n + 1..], times[n + 1..], rtt, Sent(marks, first, times[n])).0;
    assert answered + (first + rest) == answered + first + rest;
    assert nackItems[n..][0] == nackItems[n] && nackItems[n..][1..] == nackItems[n + 1..];
    assert times[n..][0] == times[n] && times[n..][1..] == times[n + 1..];
  }

  lemma AnswersEnd(slots: Slots, nackItems: seq<NackItem>, times: seq<Time64>, rtt: nat, before: map<Item, Mark>,
                   answered: seq<Item>, marks: map<Item, Mark>)
    requires WellFormed(slots) && SoFar(slots, nackItems, times, rtt, before, |nackItems|, answered, marks)
    ensures (answered, marks) == Answers(slots, nackItems, times, rtt, before)
    ensures TotalRequested(nackItems[|nackItems|..]) == 0
  {
    assert answered + [] == answered;
  }

  lemma NothingSent()
    ensures PacketsOf([], [])
  {
  }

  lemma AppendPackets(packets: seq<RtpPacket>, more: seq<RtpPacket>, a: seq<Item>, b: seq<Item>)
    requires PacketsOf(packets, a) && PacketsOf(more, b)
    ensures PacketsOf(packets + more, a + b)
  {
  }

  lemma PacketsAre(packets: seq<RtpPacket>, items: seq<Item>)
    requires PacketsOf(packets, items)
    ensures |packets| == |items| && forall k | 0 <= k < |packets| ::
              && packets[k].ssrc == items[k].ssrc && packets[k].sequenceNumber == items[k].sequenceNumber
              && packets[k].timestamp == items[k].timestamp && packets[k].payload == items[k].rtpPacket.payload
  {
  }

  lemma NothingResendable(numbers: seq<Seq16>, due: set<Item>)
    ensures Resendable([], numbers, due) == []
  {
  }

  class RtpStreamSender {
    const retransmissionBuffer: RtpRetransmissionBuffer?
    const container: array<Item?>
    var rtt: real
    var nackCount: nat
    var nackPacketCount: nat

    constructor (retransmissionBuffer: RtpRetransmissionBuffer?)
      requires retransmissionBuffer != null ==> retransmissionBuffer.Valid()
      ensures Valid() && this.retransmissionBuffer == retransmissionBuffer && fresh(container)
      ensures nackCount == 0 && nackPacketCount == 0
    {
      this.retransmissionBuffer := retransmissionBuffer;
      container := new Item?[MAX_REQUESTED_PACKETS + 1](_ => null);
      rtt, nackCount, nackPacketCount := 0.0, 0, 0;
    }

    ghost predicate Valid()
      reads this`rtt, retransmissionBuffer
    {
      && container.Length == MAX_REQUESTED_PACKETS + 1
      && rtt < 65536.0
      && (retransmissionBuffer != null ==> retransmissionBuffer.Valid())
    }

    function RttMs(): (ms: nat)
      reads this`rtt
      ensures if rtt > 0.0 then ms as real <= rtt < ms as real + 1.0 else ms == 100
    {
      if rtt > 0.0 then rtt.Floor else DEFAULT_RTT_MS
    }

    ghost function Stored(): Slots
      reads retransmissionBuffer
    {
      if retransmissionBuffer == null then [] else retransmissionBuffer.buffer
    }

    /** Looks one requested number up; what is stored under it and due is marked and put into
        slot idx. */
    method Visit(buffer: RtpRetransmissionBuffer, ghost slots: Slots, number: Seq16, idx: nat,
                 nowMs: Time64, rttMs: nat) returns (nextIdx: nat, ghost taken: seq<Item>)
      requires buffer.Valid() && slots == buffer.buffer && idx < container.Length
      modifies container, slots
      ensures unchanged(this) && unchanged(buffer)
      ensures var item := GetSlot(slots, number);
              taken == if item != null && old(Due(item, nowMs, rttMs)) then [item] else []
      ensures nextIdx == idx + |taken| && container[..nextIdx] == old(container[..idx]) + taken
      ensures MarksOf(slots) == Sent(old(MarksOf(slots)), taken, nowMs)
    {
      nextIdx, taken := idx, [];
      var item := buffer.Get(number);
      if item != null {
        GetSlotHasNumber(slots, number);
        if item.resentAtMs != 0 && Elapsed(nowMs, item.resentAtMs) <= rttMs {
          return;
        }
        item.resentAtMs := nowMs;
        item.sentTimes := (item.sentTimes + 1) % 256;
        container[idx] := item;
        nextIdx, taken := idx + 1, [item];
      }
    }

    /** Fills the container with the stored items among the requested ones that are due, ends it with
        null, and marks what it holds as resent now. */
    method FillRetransmissionContainer(number: Seq16, lostPacketBitmask: Seq16, nowMs: Time64, ghost slots: Slots)
      returns (ghost sent: seq<Item>)
      requires Valid() && slots == Stored()
      modifies container, slots
      ensures unchanged(this) && (retransmissionBuffer != null ==> unchanged(retransmissionBuffer))
      ensures sent == Resendable(slots, Requested(number, lostPacketBitmask),
                                 DueAt(old(MarksOf(slots)), nowMs, RttMs()))
      ensures |sent| < container.Length && container[..|sent|] == sent && container[|sent|] == null
      ensures MarksOf(slots) == Sent(old(MarksOf(slots)), sent, nowMs)
    {
      container[0] := null;
      if retransmissionBuffer == null {
        NothingResendable(Requested(number, lostPacketBitmask), DueAt(MarksOf(slots), nowMs, RttMs()));
        sent := [];
      } else {
        sent := FillFrom(retransmissionBuffer, slots, number, lostPacketBitmask, nowMs, RttMs());
      }
    }

    /** Visits the k-th requested number, after `sent` was chosen among those before it. */
    method VisitNext(buffer: RtpRetransmissionBuffer, ghost slots: Slots, ghost all: seq<Seq16>, ghost k: nat,
                     current: Seq16, idx: nat, nowMs: Time64, rttMs: nat, ghost before: map<Item, Mark>,
                     ghost sent: seq<Item>) returns (nextIdx: nat, ghost taken: seq<Item>)
      requires buffer.Valid() && slots == buffer.buffer && idx < container.Length
      requires k < |all| && all[k] == current && forall i, j | 0 <= i < j < |all| :: all[i] != all[j]
      requires sent == Resendable(slots, all[..k], DueAt(before, nowMs, rttMs)) && container[..idx] == sent
      requires MarksOf(slots) == Sent(before, sent, nowMs)
      modifies container, slots
      ensures unchanged(this) && unchanged(buffer)
      ensures sent + taken == Resendable(slots, all[..k + 1], DueAt(before, nowMs, rttMs))
      ensures nextIdx == |sent + taken| <= idx + 1 && container[..nextIdx] == sent + taken
      ensures MarksOf(slots) == Sent(before, sent + taken, nowMs)
    {
      ResendableStep(slots, all, k, DueAt(before, nowMs, rttMs));
      DueByMark(slots, GetSlot(slots, current), before, sent, nowMs, rttMs);
      hide GetSlot, Resendable, MarksOf, Sent, DueAt, Due;
      nextIdx, taken := Visit(buffer, slots, current, idx, nowMs, rttMs);
      SentTogether(before, sent, taken, nowMs);
    }

    method FillFrom(buffer: RtpRetransmissionBuffer, ghost slots: Slots, number: Seq16,
                    lostPacketBitmask: Seq16, nowMs: Time64, rttMs: nat)
      returns (ghost sent: seq<Item>)
      requires buffer.Valid() && slots == buffer.buffer && container.Length == MAX_REQUESTED_PACKETS + 1
      modifies container, slots
      ensures unchanged(this) && unchanged(buffer)
      ensures sent == Resendable(slots, Requested(number, lostPacketBitmask),
                                 DueAt(old(MarksOf(slots)), nowMs, rttMs))
      ensures |sent| < container.Length && container[..|sent|] == sent && container[|sent|] == null
      ensures MarksOf(slots) == Sent(old(MarksOf(slots)), sent, nowMs)
    {
      ghost var before := MarksOf(slots);
      SentNothing(before, nowMs);
      hide GetSlot, MarksOf, Sent, DueAt;
      sent := [];
      var current, requested, mask: nat := number, true, lostPacketBitmask;
      var containerIdx: nat := 0;
      ghost var all, k := Requested(number, lostPacketBitmask), 0;
      RequestedIsBrief(number, lostPacketBitmask);
      while requested || mask != 0
        invariant unchanged(this) && unchanged(buffer)
        invariant 0 <= k <= |all| && RequestedFrom(requested, mask, current) == all[k..]
        invariant containerIdx == |sent| <= k && container[..containerIdx] == sent
        invariant sent == Resendable(slots, all[..k], DueAt(before, nowMs, rttMs))
        invariant MarksOf(slots) == Sent(before, sent, nowMs)
        decreases mask, requested
      {
        if requested {
          NextRequested(requested, mask, current, all, k);
          ghost var taken;
          containerIdx, taken
            := VisitNext(buffer, slots, all, k, current, containerIdx, nowMs, rttMs, before, sent);
          sent := sent + taken;
          k := k + 1;
        } else {
          SkipUnrequested(requested, mask, current);
        }
        requested := mask % 2 == 1;
        mask := mask / 2;
        current := Next16(current);
      }
      assert all[..k] == all;
      container[containerIdx] := null;
    }

    /** Answers one pair at its reading of the clock. */
    method AnswerPair(pair: NackItem, nowMs: Time64, ghost slots: Slots)
      returns (packets: seq<RtpPacket>, ghost sent: seq<Item>)
      requires Valid() && slots == Stored()
      modifies this`nackPacketCount, container, slots
      ensures nackPacketCount == old(nackPacketCount) + |NumbersOf(pair)|
      ensures retransmissionBuffer != null ==> unchanged(retransmissionBuffer)
      ensures sent == Answer(slots, pair, nowMs, RttMs(), old(MarksOf(slots))) && PacketsOf(packets, sent)
      ensures MarksOf(slots) == Sent(old(MarksOf(slots)), sent, nowMs)
    {
      hide GetSlot, Resendable, Requested, CountRequestedPackets;
      CountIsByteOrderBlind(pair.packetId, pair.lostPacketBitmask);
      nackPacketCount := nackPacketCount + CountRequestedPackets(ByteSwap(pair.lostPacketBitmask));
      sent := FillRetransmissionContainer(pair.packetId, pair.lostPacketBitmask, nowMs, slots);
      packets := DrainContainer(sent);
    }

    /** Answers every pair of a NACK packet, each at its own reading of the clock; the listener gets the
        packets of `answered`, in order. */
    method ReceiveNack(nackItems: seq<NackItem>, times: seq<Time64>)
      returns (packets: seq<RtpPacket>, ghost answered: seq<Item>)
      requires Valid() && |times| == |nackItems|
      modifies this, container, Stored()
      ensures Valid() && nackCount == old(nackCount) + 1
      ensures nackPacketCount == old(nackPacketCount) + TotalRequested(nackItems)
      ensures |packets| == |answered| && forall k | 0 <= k < |packets| ::
                && packets[k].ssrc == answered[k].ssrc && packets[k].sequenceNumber == answered[k].sequenceNumber
                && packets[k].timestamp == answered[k].timestamp
                && packets[k].payload == answered[k].rtpPacket.payload
      ensures (answered, MarksOf(Stored())) == Answers(Stored(), nackItems, times, RttMs(), old(MarksOf(Stored())))
    {
      hide Answers, Answer, Sent, MarksOf, SoFar, TotalRequested, PacketsOf, NumbersOf;
      NothingSent();
      nackCount := nackCount + 1;
      packets, answered := [], [];
      ghost var slots, before := Stored(), MarksOf(Stored());
      AnswersStart(slots, nackItems, times, RttMs(), before);
      for n := 0 to |nackItems|
        invariant unchanged(this`rtt) && nackCount == old(nackCount) + 1
        invariant retransmissionBuffer != null ==> unchanged(retransmissionBuffer)
        invariant nackPacketCount + TotalRequested(nackItems[n..])
               == old(nackPacketCount) + TotalRequested(nackItems)
        invariant PacketsOf(packets, answered)
        invariant SoFar(slots, nackItems, times, RttMs(), before, n, answered, MarksOf(slots))
      {
        AnswersStep(slots, nackItems, times, RttMs(), before, n, answered, MarksOf(slots));
        var more;
        ghost var sent;
        more, sent := AnswerPair(nackItems[n], times[n], slots);
        AppendPackets(packets, more, answered, sent);
        packets := packets + more;
        answered := answered + sent;
      }
      AnswersEnd(slots, nackItems, times, RttMs(), before, answered, MarksOf(slots));
      PacketsAre(packets, answered);
    }

    /** Hands the container's packets to the listener up to the first null. */
    method DrainContainer(ghost sent: seq<Item>) returns (packets: seq<RtpPacket>)
      requires |sent| < container.Length && container[..|sent|] == sent && container[|sent|] == null
      ensures |packets| == |sent| && forall k | 0 <= k < |packets| ::
                && packets[k].ssrc == sent[k].ssrc && packets[k].sequenceNumber == sent[k].sequenceNumber
                && packets[k].timestamp == sent[k].timestamp && packets[k].payload == sent[k].rtpPacket.payload
    {
      packets := [];
      var idx := 0;
      while idx < container.Length
        invariant forall k | 0 <= k < |sent| :: container[k] == container[..|sent|][k] == sent[k]
        invariant 0 <= idx <= |sent| && |packets| == idx
        invariant forall k | 0 <= k < idx :: packets[k] == Restored(sent[k])
      {
        var item := container[idx];
        if item == null {
          break;
        }
        packets := packets + [Restored(item)];
        idx := idx + 1;
      }
    }
  }
}

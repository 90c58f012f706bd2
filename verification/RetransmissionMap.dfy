/** The retransmission buffer is a map from sequence number to item, whatever the timestamps. */
module RetransmissionMap {
  import opened SeqArithmetic
  import opened RetransmissionBuffer
  import opened RetransmissionTheorems

  /** The items of a buffer under their own sequence numbers; where two carry the same number, the
      later slot counts. */
  function Contents(slots: Slots): map<Seq16, Item> {
    if |slots| == 0 then map[]
    else
      var rest := Contents(slots[..|slots| - 1]);
      var last := slots[|slots| - 1];
      if last == null then rest else rest[last.sequenceNumber := last]
  }

  /** Slot i is the place of the number i past the base. */
  ghost predicate Addressed(slots: Slots, base: Seq16) {
    |slots| <= 0x1_0000 && forall i | 0 <= i < |slots| && slots[i] != null ::
      Sub16(slots[i].sequenceNumber, base) == i
  }

  function At(slots: Slots, i: nat): Item? {
    if i < |slots| then slots[i] else null
  }

  lemma {:induction false} ContentsByAddress(slots: Slots, base: Seq16, number: Seq16)
    requires Addressed(slots, base)
    ensures number in Contents(slots) <==> At(slots, Sub16(number, base)) != null
    ensures number in Contents(slots) ==> Contents(slots)[number] == At(slots, Sub16(number, base))
  {
    if |slots| > 0 {
      var init := slots[..|slots| - 1];
      ContentsByAddress(init, base, number);
    }
  }

  lemma WellFormedAddressed(slots: Slots)
    requires WellFormed(slots) && 0 < |slots| <= 0x1_0000
    ensures Addressed(slots, slots[0].sequenceNumber)
  {
  }

  /** Up to half of the number circle `Get` is exactly the look-up in that map, misses included. */
  lemma GetRefinesLookup(slots: Slots, number: Seq16)
    requires WellFormed(slots) && |slots| <= 0x8000
    ensures GetSlot(slots, number)
            == if number in Contents(slots) then Contents(slots)[number] else null
  {
    if |slots| > 0 {
      WellFormedAddressed(slots);
      ContentsByAddress(slots, slots[0].sequenceNumber, number);
    }
  }

  /** One slot more, and it depends on where the front sits; two more, and it fails. */
  lemma GetFindsEverythingExactly(slots: Slots)
    requires WellFormed(slots) && 0 < |slots| <= 0x1_0000
    ensures (forall number | number in Contents(slots) ::
               GetSlot(slots, number) == Contents(slots)[number])
            <==> |slots| <= 0x8000 || (|slots| == 0x8001 && slots[0].sequenceNumber >= 0x8000)
  {
    var base := slots[0].sequenceNumber;
    WellFormedAddressed(slots);
    if |slots| <= 0x8001 && (|slots| == 0x8001 ==> base >= 0x8000) {
      forall number | number in Contents(slots)
        ensures GetSlot(slots, number) == Contents(slots)[number]
      {
        ContentsByAddress(slots, base, number);
      }
    } else {
      var number := Newest(slots).sequenceNumber;
      assert Sub16(number, base) == |slots| - 1;
      ContentsByAddress(slots, base, number);
      assert GetSlot(slots, number) != Contents(slots)[number];
    }
  }

  /** The stored numbers next to a missing one have timestamps on either side of the packet's. */
  ghost predicate FitsBetween(m: map<Seq16, Item>, oldest: Item, item: Item) {
    var place := Sub16(item.sequenceNumber, oldest.sequenceNumber);
    && (forall p | p in m && Sub16(p, oldest.sequenceNumber) < place
                  && (forall q | q in m ::
                        !(Sub16(p, oldest.sequenceNumber) < Sub16(q, oldest.sequenceNumber) < place)) ::
          m[p].timestamp <= item.timestamp)
    && (forall p | p in m && place < Sub16(p, oldest.sequenceNumber)
                  && (forall q | q in m ::
                        !(place < Sub16(q, oldest.sequenceNumber) < Sub16(p, oldest.sequenceNumber))) ::
          item.timestamp <= m[p].timestamp)
  }

  ghost function MapInsertNewer(limits: Limits, m: map<Seq16, Item>, oldest: Item, newest: Item,
                                span: nat, item: Item): map<Seq16, Item>
  {
    var excess := span + Sub16(item.sequenceNumber, newest.sequenceNumber) - limits.maxItems;
    if TsLower(item.timestamp, newest.timestamp) then m
    else if excess <= 0 then m[item.sequenceNumber := item]
    else if excess >= span then map[item.sequenceNumber := item]
    else (m - {oldest.sequenceNumber})[item.sequenceNumber := item]
  }

  ghost function MapInsertOlder(limits: Limits, m: map<Seq16, Item>, oldest: Item, newest: Item,
                                span: nat, item: Item): map<Seq16, Item>
    requires limits.clockRate > 0
  {
    if IsTooOldTimestamp(limits, item.timestamp, newest.timestamp) then m
    else if TsHigher(item.timestamp, oldest.timestamp) then m
    else if span + Sub16(oldest.sequenceNumber, item.sequenceNumber) > limits.maxItems then m
    else m[item.sequenceNumber := item]
  }

  /** The insertion as an operation on the map and its two ends: no slots, no blanks, no indexes. */
  ghost function MapInsert(limits: Limits, m: map<Seq16, Item>, oldest: Item, newest: Item, item: Item)
    : map<Seq16, Item>
    requires limits.clockRate > 0
  {
    var number := item.sequenceNumber;
    var span := Sub16(newest.sequenceNumber, oldest.sequenceNumber) + 1;
    if SeqHigher(number, newest.sequenceNumber) then MapInsertNewer(limits, m, oldest, newest, span, item)
    else if SeqLower(number, oldest.sequenceNumber) then MapInsertOlder(limits, m, oldest, newest, span, item)
    else if number in m || !FitsBetween(m, oldest, item) then m
    else m[number := item]
  }

  /** A map that agrees with the slots number by number is their contents. */
  lemma ContentsAre(slots: Slots, base: Seq16, m: map<Seq16, Item>)
    requires Addressed(slots, base)
    requires forall number: Seq16 ::
      if number in m then At(slots, Sub16(number, base)) == m[number]
                     else At(slots, Sub16(number, base)) == null
    ensures Contents(slots) == m
  {
    forall number: Seq16
      ensures number in Contents(slots) <==> number in m
      ensures number in m ==> Contents(slots)[number] == m[number]
    {
      ContentsByAddress(slots, base, number);
    }
  }

  lemma SuffixAt(slots: Slots, base: Seq16, k: nat, number: Seq16)
    requires k < |slots| <= 0x1_0000
    ensures At(slots[k..], Sub16(number, Wrap16(base + k)))
            == if k <= Sub16(number, base) then At(slots, Sub16(number, base)) else null
  {
    DistanceFromLater(number, base, k);
  }

  lemma SuffixContents(slots: Slots, base: Seq16, k: nat, number: Seq16)
    requires Addressed(slots, base) && k < |slots|
    requires Addressed(slots[k..], Wrap16(base + k))
    ensures number in Contents(slots[k..]) <==> number in Contents(slots) && k <= Sub16(number, base)
    ensures number in Contents(slots[k..]) ==> Contents(slots[k..])[number] == Contents(slots)[number]
  {
    ContentsByAddress(slots, base, number);
    ContentsByAddress(slots[k..], Wrap16(base + k), number);
    SuffixAt(slots, base, k, number);
  }

  lemma AppendContents(base: Slots, front: Seq16, blanks: nat, item: Item, r: Slots)
    requires r == base + Blanks(blanks) + [item]
    requires Addressed(base, front) && Addressed(r, front)
    ensures Contents(r) == Contents(base)[item.sequenceNumber := item]
  {
    var m := Contents(base)[item.sequenceNumber := item];
    assert r[|r| - 1] == item;
    forall number: Seq16
      ensures if number in m then At(r, Sub16(number, front)) == m[number]
              else At(r, Sub16(number, front)) == null
    {
      ContentsByAddress(base, front, number);
      if number != item.sequenceNumber {
        assert Sub16(number, front) != |r| - 1;
      }
    }
    ContentsAre(r, front, m);
  }

  lemma PrependAt(base: Slots, blanks: nat, item: Item, r: Slots, number: Seq16)
    requires r == [item] + Blanks(blanks) + base && |r| <= 0x1_0000
    ensures At(r, Sub16(number, item.sequenceNumber))
            == if number == item.sequenceNumber then item
               else At(base, Sub16(number, Wrap16(item.sequenceNumber + blanks + 1)))
  {
    DistanceFromLater(number, item.sequenceNumber, blanks + 1);
    var i := Sub16(number, item.sequenceNumber);
    assert i == 0 <==> number == item.sequenceNumber;
  }

  lemma PrependContents(base: Slots, blanks: nat, item: Item, r: Slots)
    requires r == [item] + Blanks(blanks) + base
    requires Addressed(base, Wrap16(item.sequenceNumber + blanks + 1))
    requires Addressed(r, item.sequenceNumber)
    ensures Contents(r) == Contents(base)[item.sequenceNumber := item]
  {
    var m := Contents(base)[item.sequenceNumber := item];
    forall number: Seq16
      ensures if number in m then At(r, Sub16(number, item.sequenceNumber)) == m[number]
              else At(r, Sub16(number, item.sequenceNumber)) == null
    {
      ContentsByAddress(base, Wrap16(item.sequenceNumber + blanks + 1), number);
      PrependAt(base, blanks, item, r, number);
    }
    ContentsAre(r, item.sequenceNumber, m);
  }

  lemma FillContents(slots: Slots, base: Seq16, idx: nat, item: Item)
    requires Addressed(slots, base) && idx < |slots|
    requires Sub16(item.sequenceNumber, base) == idx
    ensures Contents(slots[idx := item]) == Contents(slots)[item.sequenceNumber := item]
  {
    var m := Contents(slots)[item.sequenceNumber := item];
    forall number: Seq16
      ensures if number in m then At(slots[idx := item], Sub16(number, base)) == m[number]
              else At(slots[idx := item], Sub16(number, base)) == null
    {
      ContentsByAddress(slots, base, number);
    }
    ContentsAre(slots[idx := item], base, m);
  }

  lemma SuffixAddressed(slots: Slots, base: Seq16, k: nat)
    requires Addressed(slots, base) && k <= |slots|
    ensures Addressed(slots[k..], Wrap16(base + k))
  {
    var r := slots[k..];
    forall i | 0 <= i < |r| && r[i] != null
      ensures Sub16(r[i].sequenceNumber, Wrap16(base + k)) == i
    {
      assert r[i] == slots[k + i];
    }
  }

  lemma DropOldestContents(slots: Slots)
    requires WellFormed(slots) && 1 < |slots| <= 0x1_0000
    ensures Contents(DropOldest(slots)) == Contents(slots) - {slots[0].sequenceNumber}
  {
    hide Contents, Addressed;
    var k := FirstItem(slots, 1);
    var base := slots[0].sequenceNumber;
    WellFormedAddressed(slots);
    SuffixAddressed(slots, base, k);
    assert slots[k..] == DropOldest(slots);
    assert k < |slots|;
    forall number: Seq16
      ensures number in Contents(slots[k..]) <==> number in Contents(slots) && number != base
      ensures number in Contents(slots[k..]) ==> Contents(slots[k..])[number] == Contents(slots)[number]
    {
      SuffixContents(slots, base, k, number);
      ContentsByAddress(slots, base, number);
    }
  }

  lemma FitsBetweenMeansNeighbours(slots: Slots, item: Item, a: nat, idx: nat, b: nat)
    requires WellFormed(slots) && 0 < |slots| <= 0x1_0000
    requires idx == Sub16(item.sequenceNumber, slots[0].sequenceNumber)
    requires Neighbours(slots, a, idx, b)
    ensures FitsBetween(Contents(slots), slots[0], item)
            <==> slots[a].timestamp <= item.timestamp <= slots[b].timestamp
  {
    var m, base := Contents(slots), slots[0].sequenceNumber;
    WellFormedAddressed(slots);
    ContentsByAddress(slots, base, slots[a].sequenceNumber);
    ContentsByAddress(slots, base, slots[b].sequenceNumber);
    var low, high := slots[a].sequenceNumber, slots[b].sequenceNumber;
    assert Sub16(low, base) == a && Sub16(high, base) == b;
    forall p | p in m
      ensures Sub16(p, base) <= a || Sub16(p, base) == idx || b <= Sub16(p, base)
      ensures Sub16(p, base) == a ==> m[p] == slots[a]
      ensures Sub16(p, base) == b ==> m[p] == slots[b]
    {
      ContentsByAddress(slots, base, p);
    }
    assert low in m && high in m;
  }

  lemma AppendRefines(base: Slots, step: Seq16, item: Item)
    requires step > 0 && 0 < |base| <= 0x1_0000 - step && WellFormed(base)
    requires Sub16(item.sequenceNumber, Newest(base).sequenceNumber) == step
    ensures Contents(base + Blanks(step - 1) + [item]) == Contents(base)[item.sequenceNumber := item]
  {
    var r := base + Blanks(step - 1) + [item];
    AppendWellFormed(base, step - 1, item);
    WellFormedAddressed(base);
    WellFormedAddressed(r);
    AppendContents(base, base[0].sequenceNumber, step - 1, item, r);
  }

  lemma PrependRefines(base: Slots, lead: Seq16, item: Item)
    requires lead > 0 && 0 < |base| <= 0x1_0000 - lead && WellFormed(base)
    requires Sub16(base[0].sequenceNumber, item.sequenceNumber) == lead
    ensures Contents([item] + Blanks(lead - 1) + base) == Contents(base)[item.sequenceNumber := item]
  {
    var r := [item] + Blanks(lead - 1) + base;
    PrependWellFormed(base, lead - 1, item);
    WellFormedAddressed(base);
    WellFormedAddressed(r);
    PrependContents(base, lead - 1, item, r);
  }

  lemma EvictRefines(slots: Slots, step: Seq16, item: Item)
    requires step > 0 && 1 < |slots| <= 0x1_0000 - step && WellFormed(slots)
    requires Sub16(item.sequenceNumber, Newest(slots).sequenceNumber) == step
    ensures Contents(DropOldest(slots) + Blanks(step - 1) + [item])
            == (Contents(slots) - {slots[0].sequenceNumber})[item.sequenceNumber := item]
  {
    DropOldestWellFormed(slots);
    DropOldestContents(slots);
    AppendRefines(DropOldest(slots), step, item);
  }

  lemma SingletonContents(item: Item)
    ensures Contents([item]) == map[item.sequenceNumber := item]
  {
    assert [item][..0] == [];
  }

  lemma PlaceNewerRefines(limits: Limits, slots: Slots, item: Item)
    requires limits.maxItems >= 1 && 0 < |slots| <= 0x8000 && WellFormed(slots)
    requires SeqHigher(item.sequenceNumber, Newest(slots).sequenceNumber)
    ensures Contents(PlaceNewer(limits, slots, item))
            == MapInsertNewer(limits, Contents(slots), slots[0], Newest(slots), |slots|, item)
  {
    hide Contents, WellFormed, DropOldest, MakeRoomFor;
    if !TsLower(item.timestamp, Newest(slots).timestamp) {
      var step := Sub16(item.sequenceNumber, Newest(slots).sequenceNumber);
      var excess := |slots| + step - limits.maxItems;
      var room := MakeRoomFor(limits, slots, step - 1);
      RoomByExcess(limits, slots, step);
      var r := PlaceNewer(limits, slots, item);
      assert r == room.slots + Blanks(room.blanks) + [item];
      if excess <= 0 {
        AppendRefines(slots, step, item);
      } else if excess >= |slots| {
        assert r == [item];
        SingletonContents(item);
      } else {
        EvictRefines(slots, step, item);
      }
    }
  }

  lemma PlaceOlderRefines(limits: Limits, slots: Slots, item: Item)
    requires limits.clockRate > 0 && 0 < |slots| <= 0x8000 && WellFormed(slots)
    requires SeqLower(item.sequenceNumber, slots[0].sequenceNumber)
    ensures Contents(PlaceOlder(limits, slots, item))
            == MapInsertOlder(limits, Contents(slots), slots[0], Newest(slots), |slots|, item)
  {
    var r := PlaceOlder(limits, slots, item);
    var lead := Sub16(slots[0].sequenceNumber, item.sequenceNumber);
    if r != slots {
      assert r == [item] + Blanks(lead - 1) + slots;
      PrependRefines(slots, lead, item);
    }
  }

  /** Branch 6 by index: where it looks and where it writes. */
  lemma PlaceBetweenByIndex(slots: Slots, item: Item)
    requires 0 < |slots| <= 0x8000 && WellFormed(slots)
    requires !SeqHigher(item.sequenceNumber, Newest(slots).sequenceNumber)
    requires !SeqLower(item.sequenceNumber, slots[0].sequenceNumber)
    ensures var idx := Sub16(item.sequenceNumber, slots[0].sequenceNumber);
            && slots[0] != null && idx < |slots|
            && PlaceBetween(slots, item)
               == if slots[idx] == null && OlderFits(slots, idx, item.timestamp)
                     && NewerFits(slots, idx + 1, item.timestamp)
                  then slots[idx := item] else slots
  {
    BetweenIsInRange(slots, item.sequenceNumber);
    hide OlderFits, NewerFits, WellFormed;
  }

  /** What the two searches of branch 6 compare is what the map's neighbours say. */
  lemma FitsByMap(slots: Slots, item: Item, idx: Seq16)
    requires 0 < |slots| <= 0x8000 && WellFormed(slots)
    requires idx == Sub16(item.sequenceNumber, slots[0].sequenceNumber) < |slots| && slots[idx] == null
    ensures OlderFits(slots, idx, item.timestamp) && NewerFits(slots, idx + 1, item.timestamp)
            <==> FitsBetween(Contents(slots), slots[0], item)
  {
    hide Contents, FitsBetween, OlderFits, NewerFits, Sub16;
    var a, b := FindNeighbours(slots, idx);
    OlderFitsMeans(slots, a, idx, item.timestamp);
    NewerFitsMeans(slots, idx + 1, b, item.timestamp);
    FitsBetweenMeansNeighbours(slots, item, a, idx, b);
  }

  lemma InTheMap(slots: Slots, number: Seq16)
    requires 0 < |slots| <= 0x8000 && WellFormed(slots)
    requires Sub16(number, slots[0].sequenceNumber) < |slots|
    ensures slots[Sub16(number, slots[0].sequenceNumber)] == null <==> number !in Contents(slots)
    ensures Addressed(slots, slots[0].sequenceNumber)
  {
    WellFormedAddressed(slots);
    ContentsByAddress(slots, slots[0].sequenceNumber, number);
    hide Contents, Addressed, WellFormed;
  }

  lemma PlaceBetweenRefines(limits: Limits, slots: Slots, item: Item)
    requires limits.clockRate > 0 && limits.maxItems >= 1 && 0 < |slots| <= 0x8000 && WellFormed(slots)
    requires !SeqHigher(item.sequenceNumber, Newest(slots).sequenceNumber)
    requires !SeqLower(item.sequenceNumber, slots[0].sequenceNumber)
    ensures Contents(PlaceBetween(slots, item))
            == MapInsert(limits, Contents(slots), slots[0], Newest(slots), item)
  {
    hide PlaceBetween, Contents, FitsBetween, WellFormed, Addressed, SeqHigher, SeqLower, Sub16, OlderFits, NewerFits,
      MapInsertNewer, MapInsertOlder;
    PlaceBetweenByIndex(slots, item);
    InTheMap(slots, item.sequenceNumber);
    var idx := Sub16(item.sequenceNumber, slots[0].sequenceNumber);
    if slots[idx] == null {
      FitsByMap(slots, item, idx);
      FillContents(slots, slots[0].sequenceNumber, idx, item);
    }
  }

  /** Branches 4 to 6 are the map operation. */
  lemma PlaceRefinesMap(limits: Limits, slots: Slots, item: Item)
    requires limits.clockRate > 0 && limits.maxItems >= 1 && 0 < |slots| <= 0x8000 && WellFormed(slots)
    ensures Contents(Place(limits, slots, item))
            == MapInsert(limits, Contents(slots), slots[0], Newest(slots), item)
  {
    assert Sub16(Newest(slots).sequenceNumber, slots[0].sequenceNumber) == |slots| - 1;
    if SeqHigher(item.sequenceNumber, Newest(slots).sequenceNumber) {
      PlaceNewerRefines(limits, slots, item);
    } else if SeqLower(item.sequenceNumber, slots[0].sequenceNumber) {
      PlaceOlderRefines(limits, slots, item);
    } else {
      PlaceBetweenRefines(limits, slots, item);
    }
  }

  // ---------------------------------------------------------------- clearing

  /** Whether an item at p or nearer to the front is not too old. */
  ghost predicate Sheltered(limits: Limits, m: map<Seq16, Item>, base: Seq16, timestamp: Ts32, p: Seq16)
    requires limits.clockRate > 0
  {
    exists q | q in m :: Sub16(q, base) <= Sub16(p, base) && !IsTooOldTimestamp(limits, m[q].timestamp, timestamp)
  }

  /** The map without what lies nearer to the front than the first item that is not too old. */
  ghost function Cleared(limits: Limits, m: map<Seq16, Item>, base: Seq16, timestamp: Ts32): map<Seq16, Item>
    requires limits.clockRate > 0
  {
    map p | p in m && Sheltered(limits, m, base, timestamp, p) :: m[p]
  }

  lemma ShelteredByFirstYoung(limits: Limits, slots: Slots, timestamp: Ts32, p: Seq16)
    requires limits.clockRate > 0 && 0 < |slots| <= 0x1_0000 && WellFormed(slots) && p in Contents(slots)
    ensures Sheltered(limits, Contents(slots), slots[0].sequenceNumber, timestamp, p)
            <==> FirstYoung(limits, slots, timestamp, 0) <= Sub16(p, slots[0].sequenceNumber)
  {
    hide IsTooOldTimestamp, Contents;
    var m, base, k := Contents(slots), slots[0].sequenceNumber, FirstYoung(limits, slots, timestamp, 0);
    WellFormedAddressed(slots);
    ContentsByAddress(slots, base, p);
    if k < |slots| {
      ContentsByAddress(slots, base, slots[k].sequenceNumber);
      assert m[slots[k].sequenceNumber] == slots[k] && Sub16(slots[k].sequenceNumber, base) == k;
    }
    forall q | q in m
      ensures Sub16(q, base) < k ==> IsTooOldTimestamp(limits, m[q].timestamp, timestamp)
    {
      ContentsByAddress(slots, base, q);
    }
  }

  /** Clearing, whatever the timestamps. */
  lemma ClearRefinesMap(limits: Limits, slots: Slots, timestamp: Ts32)
    requires limits.clockRate > 0 && 0 < |slots| <= 0x1_0000 && WellFormed(slots)
    ensures Contents(ClearTooOld(limits, slots, timestamp))
            == Cleared(limits, Contents(slots), slots[0].sequenceNumber, timestamp)
  {
    hide Contents, Sheltered, FirstYoung;
    var k, base := FirstYoung(limits, slots, timestamp, 0), slots[0].sequenceNumber;
    var kept, m := Contents(slots[k..]), Contents(slots);
    WellFormedAddressed(slots);
    forall p: Seq16
      ensures p in kept <==> p in m && Sheltered(limits, m, base, timestamp, p)
      ensures p in kept ==> kept[p] == m[p]
    {
      if p in m {
        ShelteredByFirstYoung(limits, slots, timestamp, p);
        ContentsByAddress(slots, base, p);
      }
      SuffixAddressed(slots, base, k);
      if k < |slots| {
        SuffixContents(slots, base, k, p);
      } else {
        ContentsByAddress(slots[k..], Wrap16(base + k), p);
      }
    }
  }

  // ---------------------------------------------------------------- the whole insertion

  /** The buffer without its slots: the items under their numbers, and the two ends. */
  datatype Store = Nothing | Held(m: map<Seq16, Item>, oldest: Item, newest: Item)

  function StoreOf(slots: Slots): Store
    requires WellFormed(slots)
  {
    if |slots| == 0 then Nothing else Held(Contents(slots), slots[0], Newest(slots))
  }

  function Only(item: Item): Store {
    Held(map[item.sequenceNumber := item], item, item)
  }

  /** The item held under the first of the numbers from one on, or the given one if none is. */
  function Nearest(m: map<Seq16, Item>, number: Seq16, steps: nat, none: Item): Item
    decreases steps
  {
    if number in m then m[number]
    else if steps == 0 then none
    else Nearest(m, Next16(number), steps - 1, none)
  }

  lemma {:induction false} NearestIs(m: map<Seq16, Item>, number: Seq16, steps: nat, none: Item, target: Seq16)
    requires target in m && Sub16(target, number) <= steps
    requires forall p | p in m :: Sub16(target, number) <= Sub16(p, number)
    ensures Nearest(m, number, steps, none) == m[target]
    decreases steps
  {
    if number !in m {
      assert forall p: Seq16 | p in m :: Sub16(p, Next16(number)) == Sub16(p, number) - 1;
      NearestIs(m, Next16(number), steps - 1, none, target);
    } else {
      assert Sub16(number, number) == 0;
    }
  }

  /** The new ends go with the new map: the packet is the newest or the oldest where it was stored as
      such, and otherwise the oldest is what is held nearest to the old front. */
  ghost function StorePlace(limits: Limits, s: Store, item: Item): Store
    requires limits.clockRate > 0 && s.Held?
  {
    var m := MapInsert(limits, s.m, s.oldest, s.newest, item);
    var number := item.sequenceNumber;
    if SeqHigher(number, s.newest.sequenceNumber) then
      Held(m, Nearest(m, s.oldest.sequenceNumber, 0xFFFF, s.oldest),
           if TsLower(item.timestamp, s.newest.timestamp) then s.newest else item)
    else if SeqLower(number, s.oldest.sequenceNumber) && number in m then Held(m, item, s.newest)
    else Held(m, s.oldest, s.newest)
  }

  /** `Insert` on the map and its two ends. */
  ghost function StoreInsert(limits: Limits, s: Store, item: Item): Store
    requires limits.clockRate > 0
  {
    if s.Nothing? then Only(item)
    else if SeqLower(item.sequenceNumber, s.newest.sequenceNumber) && TsHigher(item.timestamp, s.newest.timestamp)
    then Only(item)
    else
      var timestamp := if TsHigher(item.timestamp, s.newest.timestamp) then item.timestamp else s.newest.timestamp;
      var base := s.oldest.sequenceNumber;
      var young := Cleared(limits, s.m, base, timestamp);
      if young == map[] then Only(item)
      else StorePlace(limits, Held(young, Nearest(young, base, 0xFFFF, s.oldest), s.newest), item)
  }

  /** The front is what is held nearest to any earlier front, as long as the circle is not full. */
  lemma FrontIsNearest(slots: Slots, base: Seq16, j: nat, none: Item)
    requires WellFormed(slots) && |slots| > 0 && j + |slots| <= 0x1_0000
    requires slots[0].sequenceNumber == Wrap16(base + j)
    ensures Contents(slots) != map[] && Nearest(Contents(slots), base, 0xFFFF, none) == slots[0]
  {
    var m, front := Contents(slots), slots[0].sequenceNumber;
    WellFormedAddressed(slots);
    ContentsByAddress(slots, front, front);
    forall p | p in m
      ensures Sub16(front, base) <= Sub16(p, base)
    {
      ContentsByAddress(slots, front, p);
      DistanceFromLater(p, base, j);
    }
    DistanceFromLater(front, base, j);
    NearestIs(m, base, 0xFFFF, none, front);
  }

  /** The item at the front of a suffix. */
  lemma SuffixFront(slots: Slots, k: nat)
    requires WellFormed(slots) && k < |slots| && slots[k] != null
    ensures slots[k..][0] == slots[k]
    ensures slots[k].sequenceNumber == Wrap16(slots[0].sequenceNumber + k)
  {
  }

  /** How far branch 4 moves the front. */
  lemma NewerFront(limits: Limits, slots: Slots, item: Item) returns (j: nat)
    requires limits.maxItems >= 1 && 0 < |slots| <= 0x8000 && WellFormed(slots)
    requires SeqHigher(item.sequenceNumber, Newest(slots).sequenceNumber)
    requires !TsLower(item.timestamp, Newest(slots).timestamp)
    ensures var r := PlaceNewer(limits, slots, item);
            && |r| > 0 && j + |r| <= 0x1_0000 && Newest(r) == item
            && r[0] != null && r[0].sequenceNumber == Wrap16(slots[0].sequenceNumber + j)
  {
    hide MakeRoomFor;
    var step := Sub16(item.sequenceNumber, Newest(slots).sequenceNumber);
    var room, r := MakeRoomFor(limits, slots, step - 1), PlaceNewer(limits, slots, item);
    RoomByExcess(limits, slots, step);
    assert r[|r| - 1] == item;
    if room == Room(slots, step - 1) {
      assert r[0] == slots[0];
      j := 0;
    } else if room == Room([], 0) {
      assert r == [item];
      j := Sub16(item.sequenceNumber, slots[0].sequenceNumber);
    } else {
      j := FirstItem(slots, 1);
      SuffixFront(slots, j);
      assert r[0] == slots[j..][0];
    }
  }

  lemma NewerStore(limits: Limits, slots: Slots, item: Item)
    requires limits.clockRate > 0 && limits.maxItems >= 1 && 0 < |slots| <= 0x8000 && WellFormed(slots)
    requires SeqHigher(item.sequenceNumber, Newest(slots).sequenceNumber)
    ensures var r, base := PlaceNewer(limits, slots, item), slots[0].sequenceNumber;
            && |r| > 0 && WellFormed(r)
            && Nearest(Contents(r), base, 0xFFFF, slots[0]) == r[0]
            && Newest(r) == if TsLower(item.timestamp, Newest(slots).timestamp) then Newest(slots) else item
  {
    hide Contents, Nearest, TsLower, MakeRoomFor, DropOldest;
    var base := slots[0].sequenceNumber;
    PlaceNewerWellFormed(limits, slots, item);
    if TsLower(item.timestamp, Newest(slots).timestamp) {
      FrontIsNearest(slots, base, 0, slots[0]);
    } else {
      var j := NewerFront(limits, slots, item);
      hide PlaceNewer, WellFormed;
      FrontIsNearest(PlaceNewer(limits, slots, item), base, j, slots[0]);
    }
  }

  lemma OlderStore(limits: Limits, slots: Slots, item: Item)
    requires limits.clockRate > 0 && limits.maxItems >= 1 && 0 < |slots| <= 0x8000 && WellFormed(slots)
    requires SeqLower(item.sequenceNumber, slots[0].sequenceNumber)
    ensures var r := PlaceOlder(limits, slots, item);
            && |r| > 0 && WellFormed(r) && Newest(r) == Newest(slots)
            && r[0] == if item.sequenceNumber in Contents(r) then item else slots[0]
  {
    var r := PlaceOlder(limits, slots, item);
    PlaceOlderWellFormed(limits, slots, item);
    WellFormedAddressed(slots);
    ContentsByAddress(slots, slots[0].sequenceNumber, item.sequenceNumber);
    if r != slots {
      PrependRefines(slots, Sub16(slots[0].sequenceNumber, item.sequenceNumber), item);
    }
  }

  lemma BetweenStore(slots: Slots, item: Item)
    requires 0 < |slots| && WellFormed(slots)
    requires !SeqHigher(item.sequenceNumber, Newest(slots).sequenceNumber)
    requires !SeqLower(item.sequenceNumber, slots[0].sequenceNumber)
    ensures var r := PlaceBetween(slots, item);
            |r| == |slots| && WellFormed(r) && r[0] == slots[0] && Newest(r) == Newest(slots)
  {
    BetweenIsInRange(slots, item.sequenceNumber);
  }

  lemma PlaceRefinesStore(limits: Limits, slots: Slots, item: Item)
    requires limits.clockRate > 0 && limits.maxItems >= 1 && 0 < |slots| <= 0x8000 && WellFormed(slots)
    ensures var r := Place(limits, slots, item);
            |r| > 0 && WellFormed(r) && StoreOf(r) == StorePlace(limits, StoreOf(slots), item)
  {
    hide Contents, MapInsert, Nearest, PlaceNewer, PlaceOlder, PlaceBetween, TsLower;
    PlaceRefinesMap(limits, slots, item);
    if SeqHigher(item.sequenceNumber, Newest(slots).sequenceNumber) {
      NewerStore(limits, slots, item);
    } else if SeqLower(item.sequenceNumber, slots[0].sequenceNumber) {
      OlderStore(limits, slots, item);
    } else {
      BetweenStore(slots, item);
    }
  }

  lemma NothingHeld()
    ensures Contents([]) == map[]
  {
  }

  lemma ClearRefinesStore(limits: Limits, slots: Slots, timestamp: Ts32)
    requires limits.clockRate > 0 && 0 < |slots| <= 0x1_0000 && WellFormed(slots)
    ensures var kept, base := ClearTooOld(limits, slots, timestamp), slots[0].sequenceNumber;
            var young := Cleared(limits, Contents(slots), base, timestamp);
            && WellFormed(kept) && |kept| <= |slots| && Contents(kept) == young
            && (|kept| == 0 <==> young == map[])
            && (|kept| > 0 ==> Newest(kept) == Newest(slots) && Nearest(young, base, 0xFFFF, slots[0]) == kept[0])
  {
    hide Contents, Nearest, Cleared, IsTooOldTimestamp;
    var kept, k := ClearTooOld(limits, slots, timestamp), FirstYoung(limits, slots, timestamp, 0);
    ClearTooOldWellFormed(limits, slots, timestamp);
    ClearRefinesMap(limits, slots, timestamp);
    if |kept| > 0 {
      SuffixFront(slots, k);
      hide WellFormed;
      FrontIsNearest(kept, slots[0].sequenceNumber, k, slots[0]);
    } else {
      NothingHeld();
    }
  }

  lemma WellFormedEnds(slots: Slots)
    requires WellFormed(slots) && |slots| > 0
    ensures slots[0] != null && slots[|slots| - 1] != null
  {
  }

  /** Every insertion into every buffer of up to half the number circle is the operation on the map. */
  lemma InsertRefinesMap(limits: Limits, slots: Slots, item: Item)
    requires limits.clockRate > 0 && limits.maxItems >= 1 && WellFormed(slots) && |slots| <= 0x8000
    ensures WellFormed(InsertItem(limits, slots, item))
    ensures StoreOf(InsertItem(limits, slots, item)) == StoreInsert(limits, StoreOf(slots), item)
  {
    hide Contents, Nearest, Cleared, Place, StorePlace, ClearTooOld, WellFormed;
    InsertKeepsLayout(limits, slots, item);
    SingletonContents(item);
    if |slots| > 0 && !TimestampRestart(slots, item) {
      WellFormedEnds(slots);
      var timestamp := NewestTimestamp(slots, item);
      ClearRefinesStore(limits, slots, timestamp);
      var kept := ClearTooOld(limits, slots, timestamp);
      if |kept| > 0 {
        PlaceRefinesStore(limits, kept, item);
      }
    }
  }

  lemma MapInsertKeepsOthers(limits: Limits, m: map<Seq16, Item>, oldest: Item, newest: Item, item: Item, number: Seq16)
    requires limits.clockRate > 0 && number != item.sequenceNumber
    ensures var after := MapInsert(limits, m, oldest, newest, item);
            number in after ==> number in m && after[number] == m[number]
  {
  }

  /** No insertion changes, or brings in, an entry under another number than the packet's. */
  lemma InsertKeepsOthers(limits: Limits, slots: Slots, item: Item, number: Seq16)
    requires limits.clockRate > 0 && limits.maxItems >= 1 && WellFormed(slots) && |slots| <= 0x8000
    requires number != item.sequenceNumber
    ensures var before, after := Contents(slots), Contents(InsertItem(limits, slots, item));
            number in after ==> number in before && after[number] == before[number]
  {
    hide Contents, Nearest, MapInsert, InsertItem, Sheltered;
    InsertRefinesMap(limits, slots, item);
    var s, after := StoreOf(slots), InsertItem(limits, slots, item);
    if s.Held? && number in Contents(after) {
      var timestamp := if TsHigher(item.timestamp, s.newest.timestamp) then item.timestamp else s.newest.timestamp;
      var base := s.oldest.sequenceNumber;
      var young := Cleared(limits, s.m, base, timestamp);
      MapInsertKeepsOthers(limits, young, Nearest(young, base, 0xFFFF, s.oldest), s.newest, item, number);
    }
  }

  /** The map restricted to what a timestamp leaves within the delay, in ticks. */
  ghost function Young(limits: Limits, m: map<Seq16, Item>, timestamp: Ts32): map<Seq16, Item> {
    map number | number in m && WithinDelay(limits, Sub32(timestamp, m[number].timestamp)) :: m[number]
  }

  lemma YoungLookup(limits: Limits, slots: Slots, timestamp: Ts32, number: Seq16)
    requires SoundLimits(limits) && 0 < |slots| <= 0x8000 && WellFormed(slots) && Timeline(limits, slots)
    requires !TsHigher(slots[0].timestamp, timestamp) && !TsLower(timestamp, Newest(slots).timestamp)
    ensures var kept := Contents(ClearTooOld(limits, slots, timestamp));
            var m := Contents(slots);
            && (number in kept <==>
                number in m && WithinDelay(limits, Sub32(timestamp, m[number].timestamp)))
            && (number in kept ==> kept[number] == m[number])
  {
    hide WithinDelay, Timeline, TsHigher, TsLower, Contents, Addressed;
    var k := FirstYoung(limits, slots, timestamp, 0);
    var base := slots[0].sequenceNumber;
    WellFormedAddressed(slots);
    ContentsByAddress(slots, base, number);
    SuffixAddressed(slots, base, k);
    if k < |slots| {
      SuffixContents(slots, base, k, number);
    } else {
      NothingHeld();
    }
    if number in Contents(slots) {
      ClearRemovesExactlyTheTooOld(limits, slots, timestamp, Sub16(number, base));
    }
  }

  lemma ClearKeepsYoung(limits: Limits, slots: Slots, timestamp: Ts32)
    requires SoundLimits(limits) && 0 < |slots| <= 0x8000 && WellFormed(slots) && Timeline(limits, slots)
    requires !TsHigher(slots[0].timestamp, timestamp) && !TsLower(timestamp, Newest(slots).timestamp)
    ensures Contents(ClearTooOld(limits, slots, timestamp)) == Young(limits, Contents(slots), timestamp)
  {
    var kept := ClearTooOld(limits, slots, timestamp);
    forall number: Seq16
      ensures number in Contents(kept) <==> number in Young(limits, Contents(slots), timestamp)
      ensures number in Contents(kept) ==> Contents(kept)[number] == Contents(slots)[number]
    {
      YoungLookup(limits, slots, timestamp, number);
    }
  }

  /** With one timeline, what an insertion clears is exactly what lies further from the newest timestamp
      than the delay. */
  lemma InsertKeepsYoung(limits: Limits, slots: Slots, item: Item)
    requires SoundLimits(limits) && 0 < |slots| <= 0x8000 && WellFormed(slots) && Timeline(limits, slots)
    requires !TimestampRestart(slots, item) && !JumpTooFar(slots, item)
    ensures var timestamp := NewestTimestamp(slots, item);
            Cleared(limits, Contents(slots), slots[0].sequenceNumber, timestamp)
            == Young(limits, Contents(slots), timestamp)
  {
    ClearRefinesMap(limits, slots, NewestTimestamp(slots, item));
    ClearKeepsYoung(limits, slots, NewestTimestamp(slots, item));
  }

  /** The placing itself takes out an entry under another number only to make room for a newer packet. */
  lemma PlaceKeepsOthers(limits: Limits, m: map<Seq16, Item>, oldest: Item, newest: Item, size: nat, item: Item,
                         number: Seq16)
    requires limits.clockRate > 0 && number != item.sequenceNumber
    requires size == Sub16(newest.sequenceNumber, oldest.sequenceNumber) + 1
    ensures var after := MapInsert(limits, m, oldest, newest, item);
            && (number in after ==> number in m)
            && (number in m
                && (SeqHigher(item.sequenceNumber, newest.sequenceNumber) ==>
                      size + Sub16(item.sequenceNumber, newest.sequenceNumber) <= limits.maxItems)
                ==> number in after)
  {
  }

  lemma NewestIsLast(limits: Limits, slots: Slots, item: Item)
    requires SoundLimits(limits) && |slots| > 0 && WellFormed(slots) && Timeline(limits, slots)
    requires !JumpTooFar(slots, item)
    ensures var timestamp := NewestTimestamp(slots, item);
            !TsHigher(slots[0].timestamp, timestamp) && !TsLower(timestamp, Newest(slots).timestamp)
  {
    hide Timeline;
  }

  lemma SpanByEnds(slots: Slots)
    requires 0 < |slots| <= 0x1_0000 && WellFormed(slots)
    ensures Sub16(Newest(slots).sequenceNumber, slots[0].sequenceNumber) + 1 == |slots|
  {
  }

  /** After the clearing, an insertion is the placing on the map of what is left. */
  lemma AfterClearing(limits: Limits, slots: Slots, item: Item)
    requires limits.clockRate > 0 && limits.maxItems >= 1 && 0 < |slots| <= 0x8000 && WellFormed(slots)
    requires !TimestampRestart(slots, item)
    ensures var kept := ClearTooOld(limits, slots, NewestTimestamp(slots, item));
            && WellFormed(kept) && |kept| <= |slots|
            && (|kept| == 0 ==>
                  && Contents(kept) == map[]
                  && Contents(InsertItem(limits, slots, item)) == map[item.sequenceNumber := item])
            && (|kept| > 0 ==>
                  && kept[0] != null && kept[|kept| - 1] != null && Newest(kept) == Newest(slots)
                  && |kept| == Sub16(Newest(kept).sequenceNumber, kept[0].sequenceNumber) + 1
                  && Contents(InsertItem(limits, slots, item))
                     == MapInsert(limits, Contents(kept), kept[0], Newest(kept), item))
  {
    hide Contents, Place, MapInsert, Sub16, TimestampRestart;
    var timestamp := NewestTimestamp(slots, item);
    ClearTooOldWellFormed(limits, slots, timestamp);
    var kept := ClearTooOld(limits, slots, timestamp);
    SingletonContents(item);
    NothingHeld();
    if |kept| > 0 {
      SpanByEnds(kept);
      PlaceRefinesMap(limits, kept, item);
    }
  }

  /** With one timeline, an insertion that needs no room drops, of the entries under other numbers, exactly
      those further in ticks from the newest timestamp than the delay; none of these survives any other. */
  lemma InsertDropsExactlyTheOld(limits: Limits, slots: Slots, item: Item, number: Seq16)
    requires SoundLimits(limits) && limits.maxItems >= 1 && 0 < |slots| <= 0x8000
    requires WellFormed(slots) && Timeline(limits, slots)
    requires !TimestampRestart(slots, item) && !JumpTooFar(slots, item)
    requires number in Contents(slots) && number != item.sequenceNumber
    ensures var after := Contents(InsertItem(limits, slots, item));
            var ticks := Sub32(NewestTimestamp(slots, item), Contents(slots)[number].timestamp);
            && (number in after ==> ticks * 1000 < (limits.maxDelayMs + 1) * limits.clockRate)
            && (ticks * 1000 < (limits.maxDelayMs + 1) * limits.clockRate
                && (SeqHigher(item.sequenceNumber, Newest(slots).sequenceNumber) ==>
                      |slots| + Sub16(item.sequenceNumber, Newest(slots).sequenceNumber) <= limits.maxItems)
                ==> number in after)
  {
    hide Contents, Timeline, TsHigher, TsLower, SeqHigher, SeqLower, Sub16, MapInsert;
    var timestamp := NewestTimestamp(slots, item);
    NewestIsLast(limits, slots, item);
    YoungLookup(limits, slots, timestamp, number);
    AfterClearing(limits, slots, item);
    var kept := ClearTooOld(limits, slots, timestamp);
    hide InsertItem, ClearTooOld, WellFormed, NewestTimestamp;
    if |kept| > 0 {
      PlaceKeepsOthers(limits, Contents(kept), kept[0], Newest(kept), |kept|, item, number);
    }
  }

  // ---------------------------------------------------------------- runs

  /** The buffer after a series of insertions. */
  function InsertAll(limits: Limits, items: seq<Item>): (slots: Slots)
    requires limits.clockRate > 0
    ensures WellFormed(slots)
  {
    if |items| == 0 then []
    else
      var before := InsertAll(limits, items[..|items| - 1]);
      InsertKeepsLayout(limits, before, items[|items| - 1]);
      InsertItem(limits, before, items[|items| - 1])
  }

  ghost function StoreAll(limits: Limits, items: seq<Item>): Store
    requires limits.clockRate > 0
  {
    if |items| == 0 then Nothing
    else StoreInsert(limits, StoreAll(limits, items[..|items| - 1]), items[|items| - 1])
  }

  function Lookup(s: Store, number: Seq16): Item? {
    if s.Held? && number in s.m then s.m[number] else null
  }

  /** Before each packet the buffer spans at most half of the number circle. */
  ghost predicate WithinHalf(limits: Limits, items: seq<Item>)
    requires limits.clockRate > 0
  {
    forall n | 0 <= n < |items| :: |InsertAll(limits, items[..n])| <= 0x8000
  }

  lemma LookupFinds(slots: Slots, number: Seq16)
    requires WellFormed(slots) && |slots| <= 0x8000
    ensures (|slots| > 0 ==> slots[0] != null) && GetSlot(slots, number) == Lookup(StoreOf(slots), number)
  {
    GetRefinesLookup(slots, number);
  }

  /** Over every such run, whatever the timestamps, the buffer is the map, and `Get` its look-up. */
  lemma {:induction false} RunRefinesMap(limits: Limits, items: seq<Item>)
    requires limits.clockRate > 0 && limits.maxItems >= 1 && WithinHalf(limits, items)
    ensures var slots := InsertAll(limits, items);
            && StoreOf(slots) == StoreAll(limits, items)
            && (|slots| <= 0x8000 ==>
                  forall number :: GetSlot(slots, number) == Lookup(StoreAll(limits, items), number))
  {
    hide StoreInsert, InsertItem, GetSlot, Contents, WellFormed;
    if |items| > 0 {
      var init := items[..|items| - 1];
      assert forall n | 0 <= n < |init| :: init[..n] == items[..n];
      RunRefinesMap(limits, init);
      InsertRefinesMap(limits, InsertAll(limits, init), items[|items| - 1]);
    }
    var slots := InsertAll(limits, items);
    if |slots| <= 0x8000 {
      forall number ensures GetSlot(slots, number) == Lookup(StoreOf(slots), number) {
        LookupFinds(slots, number);
      }
    }
  }

  /** No packet of the series jumps too far ahead or makes the buffer outgrow its limit. */
  ghost predicate Regular(limits: Limits, items: seq<Item>)
    requires limits.clockRate > 0
  {
    forall n | 0 <= n < |items| ::
      var before := InsertAll(limits, items[..n]);
      && !OutgrowsLimit(limits, before, items[n])
      && (|before| > 0 ==> !JumpTooFar(before, items[n]))
  }

  lemma RegularSoFar(limits: Limits, items: seq<Item>, n: nat)
    requires limits.clockRate > 0 && n <= |items| && Regular(limits, items)
    ensures Regular(limits, items[..n])
  {
    hide InsertAll, OutgrowsLimit, JumpTooFar;
    assert forall m | 0 <= m < n :: items[..n][..m] == items[..m] && items[..n][m] == items[m];
  }

  lemma InsertAllStep(limits: Limits, items: seq<Item>)
    requires limits.clockRate > 0 && |items| > 0
    ensures var before := InsertAll(limits, items[..|items| - 1]);
            WellFormed(before) && InsertAll(limits, items) == InsertItem(limits, before, items[|items| - 1])
    ensures |items| == 1 ==> InsertAll(limits, items) == items
  {
  }

  lemma {:induction false} RunKeepsBounds(limits: Limits, items: seq<Item>)
    requires SoundLimits(limits) && limits.maxItems >= 1 && Regular(limits, items)
    ensures var slots := InsertAll(limits, items);
            |slots| <= limits.maxItems && Timeline(limits, slots)
  {
    if |items| > 0 {
      var init, last := items[..|items| - 1], items[|items| - 1];
      RegularSoFar(limits, items, |items| - 1);
      RunKeepsBounds(limits, init);
      InsertAllStep(limits, items);
      assert !OutgrowsLimit(limits, InsertAll(limits, init), last);
      hide InsertAll, InsertItem, OutgrowsLimit, JumpTooFar, Timeline, WellFormed;
      SizeLimitKeptExactly(limits, InsertAll(limits, init), last);
      InsertKeepsTimeline(limits, InsertAll(limits, init), last);
    }
  }

  /** Over a regular run the buffer stays within its limit and its window, and so is the map. */
  lemma RunStaysSound(limits: Limits, items: seq<Item>, number: Seq16)
    requires SoundLimits(limits) && 1 <= limits.maxItems <= 0x8000 && Regular(limits, items)
    ensures var slots := InsertAll(limits, items);
            && |slots| <= limits.maxItems && Timeline(limits, slots)
            && StoreOf(slots) == StoreAll(limits, items)
            && GetSlot(slots, number) == Lookup(StoreAll(limits, items), number)
  {
    hide InsertAll, StoreAll, StoreOf, Timeline, GetSlot, Lookup, Regular;
    RunKeepsBounds(limits, items);
    forall n | 0 <= n < |items| ensures |InsertAll(limits, items[..n])| <= 0x8000 {
      RegularSoFar(limits, items, n);
      RunKeepsBounds(limits, items[..n]);
    }
    RunRefinesMap(limits, items);
  }

  // ---------------------------------------------------------------- a run beyond half the circle

  const SENDER_MAX_ITEMS := 2500

  /** As many consecutive packets as the sender's buffer holds, then packets one number short of that
      many apart, all of the same time. */
  ghost predicate Skipping(items: seq<Item>) {
    forall i | 0 <= i < |items| ::
      && items[i].timestamp == items[0].timestamp
      && items[i].sequenceNumber == if i < 2500 then i else Wrap16(2499 + 2499 * (i - 2499))
  }

  /** A newer packet of the same time meets branch 4 with nothing cleared. */
  lemma SameTimeIsPlaced(limits: Limits, slots: Slots, item: Item)
    requires limits.clockRate > 0 && WellFormed(slots) && |slots| > 0
    requires slots[0].timestamp == Newest(slots).timestamp == item.timestamp
    requires 0 < Sub16(item.sequenceNumber, Newest(slots).sequenceNumber) < 0x8000
    ensures SeqHigher(item.sequenceNumber, Newest(slots).sequenceNumber)
    ensures InsertItem(limits, slots, item) == PlaceNewer(limits, slots, item)
  {
    hide PlaceNewer;
    assert Quotient(0, limits.clockRate) == 0;
    assert ClearTooOld(limits, slots, item.timestamp) == slots;
  }

  lemma ConsecutiveAppends(limits: Limits, slots: Slots, item: Item)
    requires limits.clockRate > 0 && WellFormed(slots) && 0 < |slots| < limits.maxItems
    requires slots[0].timestamp == Newest(slots).timestamp == item.timestamp
    requires Sub16(item.sequenceNumber, Newest(slots).sequenceNumber) == 1
    ensures InsertItem(limits, slots, item) == slots + [item]
  {
    SameTimeIsPlaced(limits, slots, item);
    hide InsertItem, WellFormed;
    assert MakeRoomFor(limits, slots, 0) == Room(slots, 0);
    assert Blanks(0) == [] && slots + [] == slots;
  }

  lemma ConsecutiveEnds(items: seq<Item>)
    requires 0 < |items| <= 2500 && Skipping(items)
    ensures var n := |items| - 1;
            && Skipping(items[..n])
            && (n > 0 ==>
                  && items[..n][0].timestamp == Newest(items[..n]).timestamp == items[n].timestamp
                  && Sub16(items[n].sequenceNumber, Newest(items[..n]).sequenceNumber) == 1)
            && items == items[..n] + [items[n]]
  {
  }

  lemma {:induction false} ConsecutiveFill(limits: Limits, items: seq<Item>)
    requires limits.clockRate > 0 && |items| <= limits.maxItems == SENDER_MAX_ITEMS && Skipping(items)
    ensures InsertAll(limits, items) == items
  {
    if |items| > 0 {
      var init, last := items[..|items| - 1], items[|items| - 1];
      ConsecutiveEnds(items);
      InsertAllStep(limits, items);
      hide *;
      ConsecutiveFill(limits, init);
      if |init| > 0 {
        ConsecutiveAppends(limits, init, last);
      }
    }
  }

  lemma SkipMakesRoom(limits: Limits, slots: Slots)
    requires limits.maxItems == SENDER_MAX_ITEMS && 2 <= |slots| <= 0x1_0000 && slots[1] != null
    ensures MakeRoomFor(limits, slots, 2498) == Room(slots[1..], 2498)
  {
    assert FirstItem(slots, 1) == 1;
  }

  /** One removal makes room for one slot, where all but one slot were to go. */
  lemma SkipGrows(limits: Limits, slots: Slots, item: Item)
    requires limits.clockRate > 0 && limits.maxItems == SENDER_MAX_ITEMS && WellFormed(slots)
    requires 2 <= |slots| <= 0x1_0000 && slots[1] != null
    requires slots[0].timestamp == Newest(slots).timestamp == item.timestamp
    requires Sub16(item.sequenceNumber, Newest(slots).sequenceNumber) == 2499
    ensures InsertItem(limits, slots, item) == slots[1..] + Blanks(2498) + [item]
  {
    SameTimeIsPlaced(limits, slots, item);
    SkipMakesRoom(limits, slots);
    hide InsertItem, WellFormed, MakeRoomFor, Blanks;
  }

  /** What n skipping packets have made of the buffer. */
  ghost predicate Grown(slots: Slots, items: seq<Item>, n: nat) {
    && |items| == 2500 + n && n <= 25
    && |slots| == 2500 + 2498 * n && slots[|slots| - 1] == items[|items| - 1]
    && forall i | 0 <= i < 2500 - n :: slots[i] == items[n + i]
  }

  lemma SkipNumbers(n: nat)
    requires 1 <= n <= 25
    ensures Sub16(Wrap16(2499 + 2499 * n), Wrap16(2499 + 2499 * (n - 1))) == 2499
  {
  }

  lemma GrownEnds(before: Slots, items: seq<Item>, n: nat)
    requires 1 <= n <= 25 && |items| == 2500 + n && Skipping(items) && Grown(before, items[..|items| - 1], n - 1)
    ensures 2 <= |before| <= 0x1_0000 && before[0] != null && before[1] != null && before[|before| - 1] != null
    ensures before[0].timestamp == Newest(before).timestamp == items[|items| - 1].timestamp
    ensures Sub16(items[|items| - 1].sequenceNumber, Newest(before).sequenceNumber) == 2499
  {
    var init := items[..|items| - 1];
    assert before[0] == init[n - 1] == items[n - 1] && before[1] == init[n] == items[n];
    assert before[|before| - 1] == init[|init| - 1] == items[|items| - 2];
    SkipNumbers(n);
  }

  lemma GrownOnce(before: Slots, slots: Slots, items: seq<Item>, n: nat)
    requires 1 <= n <= 25 && |items| == 2500 + n && Grown(before, items[..|items| - 1], n - 1)
    requires slots == before[1..] + Blanks(2498) + [items[|items| - 1]]
    ensures Grown(slots, items, n)
  {
    var init := items[..|items| - 1];
    forall i | 0 <= i < 2500 - n ensures slots[i] == items[n + i] {
      assert slots[i] == before[i + 1] == init[n + i];
    }
  }

  lemma NotYetGrown(items: seq<Item>)
    requires |items| == 2500
    ensures Grown(items, items, 0)
  {
  }

  lemma SkippingSoFar(items: seq<Item>)
    requires |items| > 0 && Skipping(items)
    ensures Skipping(items[..|items| - 1])
  {
  }

  lemma {:induction false} SkipsGrow(limits: Limits, items: seq<Item>, n: nat)
    requires limits.clockRate > 0 && limits.maxItems == SENDER_MAX_ITEMS && Skipping(items)
    requires |items| == 2500 + n && n <= 25
    ensures Grown(InsertAll(limits, items), items, n)
    decreases n
  {
    if n == 0 {
      ConsecutiveFill(limits, items);
      NotYetGrown(items);
    } else {
      hide *;
      var init, last := items[..|items| - 1], items[|items| - 1];
      var before := InsertAll(limits, init);
      SkippingSoFar(items);
      SkipsGrow(limits, init, n - 1);
      InsertAllStep(limits, items);
      GrownEnds(before, items, n);
      SkipGrows(limits, before, last);
      GrownOnce(before, InsertAll(limits, items), items, n);
    }
  }

  /** From the thirteenth such packet on a buffer for 2500 items spans more than half of the number
      circle, and `Get` misses the packet just stored. */
  lemma SkipsPassHalfTheCircle(limits: Limits, items: seq<Item>)
    requires limits.clockRate > 0 && limits.maxItems == SENDER_MAX_ITEMS && Skipping(items)
    requires 2513 <= |items| <= 2525
    ensures var slots, newest := InsertAll(limits, items), items[|items| - 1];
            && |slots| == 2500 + 2498 * (|items| - 2500) > 0x8000
            && newest.sequenceNumber in Contents(slots) && Contents(slots)[newest.sequenceNumber] == newest
            && GetSlot(slots, newest.sequenceNumber) == null
  {
    SkipsGrow(limits, items, |items| - 2500);
    var slots, newest := InsertAll(limits, items), items[|items| - 1];
    var base := slots[0].sequenceNumber;
    WellFormedAddressed(slots);
    assert Sub16(newest.sequenceNumber, base) == |slots| - 1;
    ContentsByAddress(slots, base, newest.sequenceNumber);
  }

  // ---------------------------------------------------------------- short runs with a surprise

  const SENDER_LIMITS := Limits(2500, 1000, 90000)

  lemma TwoPackets(a: Item, b: Item)
    requires SeqHigher(b.sequenceNumber, a.sequenceNumber) && !TsLower(b.timestamp, a.timestamp)
    requires Sub16(b.sequenceNumber, a.sequenceNumber) <= 2 && Sub32(b.timestamp, a.timestamp) <= 90000
    ensures InsertAll(SENDER_LIMITS, [a, b])
            == [a] + Blanks(Sub16(b.sequenceNumber, a.sequenceNumber) - 1) + [b]
  {
    var limits, slots: Slots := SENDER_LIMITS, [a];
    InsertAllStep(limits, [a]);
    InsertAllStep(limits, [a, b]);
    assert [a, b][..1] == [a];
    QuotientIsDivision(Sub32(b.timestamp, a.timestamp) * 1000, 90000);
    QuotientIsDivision(0, 90000);
    assert ClearTooOld(limits, slots, NewestTimestamp(slots, b)) == slots;
  }

  lemma ThirdPacket(a: Item, b: Item, c: Item)
    ensures var before := InsertAll(SENDER_LIMITS, [a, b]);
            WellFormed(before) && InsertAll(SENDER_LIMITS, [a, b, c]) == InsertItem(SENDER_LIMITS, before, c)
  {
    InsertAllStep(SENDER_LIMITS, [a, b, c]);
    assert [a, b, c][..2] == [a, b];
  }

  lemma JumpAfterTwo(slots: Slots, a: Item, b: Item, c: Item)
    requires a.sequenceNumber == 0 && b.sequenceNumber == 1 && c.sequenceNumber == 2
    requires a.timestamp == 0 && b.timestamp == 100 && c.timestamp == 0x8000_0010 && slots == [a, b]
    ensures WellFormed(slots) && SoundLimits(SENDER_LIMITS) && Timeline(SENDER_LIMITS, slots)
    ensures JumpIsStored(SENDER_LIMITS, slots, c)
  {
    QuotientIsDivision(0, 90000);
    QuotientIsDivision(100000, 90000);
    QuotientIsDivision(0x8000_0000 * 1000, 90000);
  }

  /** Two packets in order, and a third whose timestamp jumps beyond half of the circle: it is stored, and
      there is no timeline any more. */
  lemma JumpBreaksTimeline(a: Item, b: Item, c: Item)
    requires a.sequenceNumber == 0 && b.sequenceNumber == 1 && c.sequenceNumber == 2
    requires a.timestamp == 0 && b.timestamp == 100 && c.timestamp == 0x8000_0010
    ensures Timeline(SENDER_LIMITS, InsertAll(SENDER_LIMITS, [a, b]))
    ensures !Timeline(SENDER_LIMITS, InsertAll(SENDER_LIMITS, [a, b, c]))
  {
    hide InsertAll, InsertItem, JumpIsStored, Timeline, SoundLimits;
    TwoPackets(a, b);
    ThirdPacket(a, b, c);
    assert [a] + Blanks(0) + [b] == [a, b];
    JumpAfterTwo([a, b], a, b, c);
    TimelineKeptExactly(SENDER_LIMITS, [a, b], c);
  }

  lemma RefusedAfterTwo(slots: Slots, a: Item, b: Item, c: Item)
    requires a.sequenceNumber == 0 && c.sequenceNumber == 1 && b.sequenceNumber == 2
    requires a.timestamp == 0xFFFF_FF00 && b.timestamp == 0x100 && Sub32(c.timestamp, a.timestamp) <= 0x200
    requires slots == [a, null, b]
    ensures WellFormed(slots) && InsertItem(SENDER_LIMITS, slots, c) == slots
  {
    QuotientIsDivision(0x200 * 1000, 90000);
    assert ClearTooOld(SENDER_LIMITS, slots, b.timestamp) == slots;
    hide ClearTooOld;
    assert Place(SENDER_LIMITS, slots, c) == PlaceBetween(slots, c);
    assert !OlderFits(slots, 1, c.timestamp) || !NewerFits(slots, 2, c.timestamp);
  }

  /** Timestamps that wrap between two stored packets: the packet between them, though its time lies
      between theirs, is refused. */
  lemma WrapInGapRefuses(a: Item, b: Item, c: Item)
    requires a.sequenceNumber == 0 && c.sequenceNumber == 1 && b.sequenceNumber == 2
    requires a.timestamp == 0xFFFF_FF00 && b.timestamp == 0x100 && Sub32(c.timestamp, a.timestamp) <= 0x200
    ensures InsertAll(SENDER_LIMITS, [a, b, c]) == InsertAll(SENDER_LIMITS, [a, b]) == [a, null, b]
  {
    hide InsertAll, InsertItem;
    TwoPackets(a, b);
    ThirdPacket(a, b, c);
    assert [a] + Blanks(1) + [b] == [a, null, b];
    RefusedAfterTwo([a, null, b], a, b, c);
  }
}

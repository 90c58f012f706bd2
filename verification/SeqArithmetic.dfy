/** Circular arithmetic on 16-bit sequence numbers and 32-bit RTP timestamps, and the
    comparators of `SeqManager<T, N>`, which every container of the RTP engine sorts by. */
module SeqArithmetic {
  const SEQ_MOD := 0x1_0000
  const TS_MOD := 0x1_0000_0000

  type Seq16 = x: int | 0 <= x < 0x1_0000
  type Ts32 = x: int | 0 <= x < 0x1_0000_0000

  /** `SeqLowerThan::operator()` for any `MaxValue`. */
  predicate LowerThan(maxValue: nat, lhs: nat, rhs: nat) {
    || (rhs > lhs && rhs - lhs <= maxValue / 2)
    || (lhs > rhs && lhs - rhs > maxValue / 2)
  }

  /** `SeqHigherThan::operator()` for any `MaxValue`. */
  predicate HigherThan(maxValue: nat, lhs: nat, rhs: nat) {
    || (lhs > rhs && lhs - rhs <= maxValue / 2)
    || (rhs > lhs && rhs - lhs > maxValue / 2)
  }

  predicate SeqLower(lhs: Seq16, rhs: Seq16) { LowerThan(0xFFFF, lhs, rhs) }

  predicate SeqHigher(lhs: Seq16, rhs: Seq16) { HigherThan(0xFFFF, lhs, rhs) }

  predicate TsLower(lhs: Ts32, rhs: Ts32) { LowerThan(0xFFFF_FFFF, lhs, rhs) }

  predicate TsHigher(lhs: Ts32, rhs: Ts32) { HigherThan(0xFFFF_FFFF, lhs, rhs) }

  /** `uint16_t` subtraction. */
  function Sub16(a: Seq16, b: Seq16): Seq16 {
    if a >= b then a - b else a - b + SEQ_MOD
  }

  /** `uint32_t` subtraction. */
  function Sub32(a: Ts32, b: Ts32): Ts32 {
    if a >= b then a - b else a - b + TS_MOD
  }

  /** Conversion of an unbounded value to `uint16_t`. */
  function Wrap16(x: int): Seq16 { x % SEQ_MOD }

  /** `++` on a `uint16_t`. */
  function Next16(x: Seq16): Seq16 { if x == 0xFFFF then 0 else x + 1 }

  lemma WrapAdd(a: int, b: int)
    ensures Wrap16(Wrap16(a) + b) == Wrap16(a + b)
  {
  }

  /** Distances from a base that moves up by k. */
  lemma DistanceFromLater(number: Seq16, base: Seq16, k: nat)
    requires k <= SEQ_MOD
    ensures var place := Sub16(number, base);
            Sub16(number, Wrap16(base + k))
            == if place >= k then place - k else if k == SEQ_MOD then place else place - k + SEQ_MOD
  {
  }

  /** Unequal values are ordered one way only, and the two comparators are each other's mirror,
      for every odd `MaxValue` (2^N - 1), ties at half the circle included. */
  lemma ComparatorsAreTotal(maxValue: nat, a: nat, b: nat)
    requires a <= maxValue && b <= maxValue
    ensures HigherThan(maxValue, a, b) == LowerThan(maxValue, b, a)
    ensures a == b ==> !LowerThan(maxValue, a, b)
    ensures a != b ==> LowerThan(maxValue, a, b) != LowerThan(maxValue, b, a)
  {
  }

  lemma MultipleIsLarge(m: int, k: int)
    requires m > 0
    ensures k >= 2 ==> k * m >= 2 * m
    ensures k <= -2 ==> k * m <= -2 * m
  {
  }

  lemma LowerByParts(half: nat, q: int, a: nat, r: int, b: nat)
    requires a < 2 * half && b < 2 * half
    requires 0 < r * (2 * half) + b - (q * (2 * half) + a) < half
    ensures LowerThan(2 * half - 1, a, b) && !LowerThan(2 * half - 1, b, a)
  {
    var m, k := 2 * half, r - q;
    assert k * m == r * m - q * m;
    MultipleIsLarge(m, k);
    assert k == 0 || k == 1;
  }

  lemma Parts(x: int, m: nat)
    requires m > 0
    ensures x == x / m * m + x % m && 0 <= x % m < m
  {
  }

  lemma UnwrappedLower(half: nat, x: int, y: int)
    requires half > 0 && x < y < x + half
    ensures 0 <= x % (2 * half) && 0 <= y % (2 * half)
    ensures LowerThan(2 * half - 1, x % (2 * half), y % (2 * half)) && x % (2 * half) != y % (2 * half)
    ensures !LowerThan(2 * half - 1, y % (2 * half), x % (2 * half))
  {
    Parts(x, 2 * half);
    Parts(y, 2 * half);
    LowerByParts(half, x / (2 * half), x % (2 * half), y / (2 * half), y % (2 * half));
  }

  /** Two counters less than half a circle apart compare the way their unwrapped values do. */
  lemma UnwrappedOrder(half: int, x: int, y: int)
    requires half > 0 && -half < y - x < half
    ensures 0 <= x % (2 * half) && 0 <= y % (2 * half)
    ensures LowerThan(2 * half - 1, x % (2 * half), y % (2 * half)) <==> x < y
    ensures x % (2 * half) == y % (2 * half) ==> x == y
  {
    Parts(x, 2 * half);
    if x < y {
      UnwrappedLower(half, x, y);
    } else if y < x {
      UnwrappedLower(half, y, x);
    }
  }

  predicate Ascending(numbers: seq<int>) {
    forall i, j | 0 <= i < j < |numbers| :: numbers[i] < numbers[j]
  }

  /** Over a whole circle the comparator is not an order: it is not even transitive. */
  lemma NotTransitiveOnTheWholeCircle()
    ensures SeqLower(0, 30000) && SeqLower(30000, 60000) && SeqLower(60000, 0)
  {
  }

  /** On keys inside one half window it is a strict total order: it sorts them by distance. */
  lemma WindowOrder(top: Seq16, a: Seq16, b: Seq16)
    requires Sub16(top, a) < 0x8000 && Sub16(top, b) < 0x8000
    ensures SeqLower(a, b) <==> Sub16(top, a) > Sub16(top, b)
    ensures a == b <==> Sub16(top, a) == Sub16(top, b)
  {
  }
}

/** Renumbering of a sequence with some of its numbers dropped, modulo any even range. */
module SeqManager {
  import opened SeqArithmetic

  // ---------------------------------------------------------------- numbers that never wrap

  /** How many of the numbers are lower than n. */
  function Below(s: seq<int>, n: int): (r: nat)
    ensures r <= |s|
  {
    if |s| == 0 then 0 else Below(s[..|s| - 1], n) + if s[|s| - 1] < n then 1 else 0
  }

  /** What an input that was not dropped becomes. */
  function Renumbered(constant: int, drops: seq<int>, n: int): int {
    n + constant - Below(drops, n)
  }

  /** How many numbers from m on, before n, were not dropped. */
  function Undropped(drops: seq<int>, m: int, n: int): nat
    requires m <= n
    decreases n - m
  {
    if m == n then 0 else Undropped(drops, m, n - 1) + if n - 1 in drops then 0 else 1
  }

  lemma {:induction false} BelowNext(s: seq<int>, n: int)
    requires Ascending(s)
    ensures Below(s, n + 1) == Below(s, n) + if n in s then 1 else 0
  {
    if |s| > 0 {
      var front, last := s[..|s| - 1], s[|s| - 1];
      BelowNext(front, n);
      assert s == front + [last];
      assert n == last ==> n !in front;
    }
  }

  /** Outputs are in the order of the inputs and leave no gap: two inputs are as far apart after
      renumbering as there are undropped numbers from the one up to the other. */
  lemma {:induction false} RenumberingIsGapFree(constant: int, drops: seq<int>, m: int, n: int)
    requires Ascending(drops) && m <= n
    ensures Renumbered(constant, drops, n) - Renumbered(constant, drops, m) == Undropped(drops, m, n)
    decreases n - m
  {
    if m < n {
      RenumberingIsGapFree(constant, drops, m, n - 1);
      BelowNext(drops, n - 1);
    }
  }

  lemma {:induction false} UndroppedBetween(drops: seq<int>, m: int, n: int)
    requires m < n && m !in drops
    ensures Undropped(drops, m, n) >= 1
    ensures (forall k | m < k < n :: k in drops) ==> Undropped(drops, m, n) == 1
    decreases n - m
  {
    if m + 1 < n {
      UndroppedBetween(drops, m, n - 1);
    }
  }

  /** Neighbours among the undropped inputs come out as neighbours. */
  lemma NeighboursStayNeighbours(constant: int, drops: seq<int>, m: int, n: int)
    requires Ascending(drops) && m < n && m !in drops
    ensures Renumbered(constant, drops, m) < Renumbered(constant, drops, n)
    ensures (forall k | m < k < n :: k in drops) ==>
              Renumbered(constant, drops, n) == Renumbered(constant, drops, m) + 1
  {
    RenumberingIsGapFree(constant, drops, m, n);
    UndroppedBetween(drops, m, n);
  }

  /** What is dropped later is higher than every input before it and changes none of their outputs, so
      all outputs of a run are those for everything dropped in it. */
  lemma LaterDropsChangeNothing(constant: int, drops: seq<int>, d: int, n: int)
    requires n <= d
    ensures Renumbered(constant, drops + [d], n) == Renumbered(constant, drops, n)
    ensures n < d ==> (n in drops + [d] <==> n in drops)
  {
    assert (drops + [d])[..|drops|] == drops;
  }

  // ---------------------------------------------------------------- wrapped numbers

  /** `x & MaxValue`, for MaxValue = 2 * half - 1. */
  function Wrap(half: nat, x: int): (r: nat)
    requires half > 0
    ensures r < 2 * half
  {
    x % (2 * half)
  }

  lemma WrapParts(half: nat, x: int) returns (q: int)
    requires half > 0
    ensures x == q * (2 * half) + Wrap(half, x)
  {
    q := x / (2 * half);
  }

  lemma Distribute(a: int, b: int, c: int, m: int)
    ensures (a - b - c) * m == a * m - b * m - c * m
  {
  }

  /** Only the multiple 0 is smaller than the number itself. */
  lemma SmallMultiple(m: int, k: int)
    requires m > 0 && -m < k * m < m
    ensures k == 0
  {
    MultipleIsLarge(m, k);
  }

  lemma WrapIsUnique(half: nat, x: int, r: nat, q: int)
    requires half > 0 && x == q * (2 * half) + r && r < 2 * half
    ensures Wrap(half, x) == r
  {
    hide Wrap;
    var p := WrapParts(half, x);
    Distribute(p, q, 0, 2 * half);
    SmallMultiple(2 * half, p - q - 0);
  }

  lemma WrapSmall(half: nat, x: nat)
    requires x < 2 * half
    ensures Wrap(half, x) == x
  {
    WrapIsUnique(half, x, x, 0);
  }

  predicate Lower(half: nat, a: nat, b: nat)
    requires half > 0
  {
    LowerThan(2 * half - 1, a, b)
  }

  predicate Higher(half: nat, a: nat, b: nat)
    requires half > 0
  {
    HigherThan(2 * half - 1, a, b)
  }

  lemma WrapUnique(half: nat, x: int, y: int, q: int)
    requires half > 0 && x == y + q * (2 * half)
    ensures Wrap(half, x) == Wrap(half, y)
  {
    hide Wrap;
    var a := WrapParts(half, x);
    var b := WrapParts(half, y);
    Distribute(a, b, q, 2 * half);
    SmallMultiple(2 * half, a - b - q);
  }

  lemma WrapAdds(half: nat, a: int, b: int)
    requires half > 0
    ensures Wrap(half, Wrap(half, a) + b) == Wrap(half, a + b)
  {
    WrapUnique(half, a + b, Wrap(half, a) + b, a / (2 * half));
  }

  /** A number not ahead of the top and, by the circular comparator, not higher either: less than half
      a range behind, or just half a range if it is the greater one as it stands. */
  predicate Live(half: nat, n: int, top: int)
    requires half > 0
  {
    && 0 <= top - n <= half
    && (top - n == half ==> Wrap(half, n) > Wrap(half, top))
  }

  /** Two numbers less than a range apart are as far apart when wrapped, or a range less. */
  lemma WrapDistance(half: nat, a: int, b: int)
    requires half > 0 && a < b < a + 2 * half
    ensures var d := Wrap(half, b) - Wrap(half, a);
            d == b - a || d == b - a - 2 * half
  {
    hide Wrap;
    var m := 2 * half;
    var p := WrapParts(half, a);
    var q := WrapParts(half, b);
    var k := q - p - 0;
    Distribute(q, p, 0, m);
    assert -m < k * m < 2 * m;
    MultipleIsLarge(m, k);
    assert k == 0 || k == 1 || k == -1;
  }

  /** How two numbers less than a range apart compare when wrapped. */
  lemma WrappedOrder(half: nat, a: int, b: int)
    requires half > 0 && a < b < a + 2 * half
    ensures var x, y := Wrap(half, a), Wrap(half, b);
            && (Lower(half, x, y) <==> b - a < half || (b - a == half && x > y))
            && (Lower(half, y, x) <==> !Lower(half, x, y))
            && (Higher(half, x, y) <==> Lower(half, y, x))
            && (Higher(half, y, x) <==> Lower(half, x, y))
            && x != y
  {
    hide Wrap;
    WrapDistance(half, a, b);
  }

  /** Live numbers compare as they would unwrapped. */
  lemma LiveOrder(half: nat, a: int, b: int, top: int)
    requires half > 0 && Live(half, a, top) && Live(half, b, top)
    ensures Lower(half, Wrap(half, a), Wrap(half, b)) <==> a < b
    ensures Wrap(half, a) == Wrap(half, b) <==> a == b
  {
    if a < b {
      WrappedOrder(half, a, b);
    } else if b < a {
      WrappedOrder(half, b, a);
    }
  }

  /** An older number is higher by the comparator exactly when it is no longer live. */
  lemma HigherIsStale(half: nat, n: int, top: int)
    requires half > 0 && n <= top < n + 2 * half
    ensures Higher(half, Wrap(half, n), Wrap(half, top)) <==> !Live(half, n, top)
  {
    if n < top {
      WrappedOrder(half, n, top);
    }
  }

  lemma LiveFromThen(half: nat, a: int, b: int, top: int)
    requires half > 0 && a <= b <= top
    ensures Live(half, a, top) ==> Live(half, b, top)
  {
  }

  /** What is stale stays stale, and lies below everything live. */
  lemma StaleIsBelow(half: nat, d: int, earlier: int, top: int, n: int)
    requires half > 0 && d <= earlier <= top && !Live(half, d, earlier)
    ensures !Live(half, d, top)
    ensures Live(half, n, top) ==> d < n
  {
  }

  function WrapAll(half: nat, s: seq<int>): (r: seq<nat>)
    requires half > 0
    ensures |r| == |s|
  {
    seq(|s|, i requires 0 <= i < |s| => Wrap(half, s[i]))
  }

  /** `lower_bound` in the ordered set of dropped inputs. */
  function LowerBound(half: nat, s: seq<nat>, key: nat, i: nat): (r: nat)
    requires half > 0 && i <= |s|
    ensures i <= r <= |s|
    decreases |s| - i
  {
    if i == |s| || !Lower(half, s[i], key) then i else LowerBound(half, s, key, i + 1)
  }

  predicate AllLive(half: nat, s: seq<int>, top: int)
    requires half > 0
  {
    forall k | 0 <= k < |s| :: Live(half, s[k], top)
  }

  lemma {:induction false} BelowAt(s: seq<int>, n: int, i: nat)
    requires Ascending(s) && i <= |s|
    requires (forall k | 0 <= k < i :: s[k] < n) && (i < |s| ==> s[i] >= n)
    ensures Below(s, n) == i
    ensures n in s <==> i < |s| && s[i] == n
    decreases |s|
  {
    if |s| > i {
      assert s[|s| - 1] >= n;
      BelowAt(s[..|s| - 1], n, i);
      assert s == s[..|s| - 1] + [s[|s| - 1]];
    } else if |s| > 0 {
      BelowAt(s[..|s| - 1], n, i - 1);
    }
  }

  /** Among live numbers, the search finds how many are lower. */
  lemma {:induction false} LowerBoundCounts(half: nat, s: seq<int>, n: int, top: int, i: nat)
    requires half > 0 && Ascending(s) && AllLive(half, s, top) && Live(half, n, top)
    requires i <= |s| && forall k | 0 <= k < i :: s[k] < n
    ensures var at := LowerBound(half, WrapAll(half, s), Wrap(half, n), i);
            && at == Below(s, n)
            && (at < |s| && WrapAll(half, s)[at] == Wrap(half, n) <==> n in s)
    decreases |s| - i
  {
    if i < |s| {
      LiveOrder(half, s[i], n, top);
    }
    if i < |s| && s[i] < n {
      LowerBoundCounts(half, s, n, top, i + 1);
    } else {
      BelowAt(s, n, i);
    }
  }

  /** Numbers in front of a number all count; what comes after is counted by itself. */
  lemma {:induction false} BelowSplits(s: seq<int>, k: nat, n: int)
    requires k <= |s| && forall j | 0 <= j < k :: s[j] < n
    ensures Below(s, n) == k + Below(s[k..], n)
    decreases |s|
  {
    var last := |s| - 1;
    if k < |s| {
      BelowSplits(s[..last], k, n);
      assert s[..last][k..] == s[k..][..last - k];
    } else if k > 0 {
      BelowSplits(s[..last], k - 1, n);
      assert s[..last][k - 1..] == [] && s[k..] == [];
    }
  }

  // ---------------------------------------------------------------- outputs of a run

  /** An input that was not refused, and what came out for it then. */
  datatype Given = Given(n: int, output: nat)

  /** Every output given so far is the one for all that was dropped up to now. */
  ghost predicate Agree(half: nat, initialOutput: nat, constant: int, drops: seq<int>, top: int, given: seq<Given>)
    requires half > 0
  {
    forall g | g in given ::
      && g.n <= top && g.n !in drops
      && g.output == Wrap(half, Wrap(half, Renumbered(constant, drops, g.n)) + initialOutput)
  }

  lemma AgreeAfterDrop(half: nat, initialOutput: nat, constant: int, drops: seq<int>, top: int,
                       given: seq<Given>, d: int)
    requires half > 0 && top < d && Agree(half, initialOutput, constant, drops, top, given)
    ensures Agree(half, initialOutput, constant, drops + [d], d, given)
  {
    forall g | g in given
      ensures Renumbered(constant, drops + [d], g.n) == Renumbered(constant, drops, g.n)
      ensures g.n in drops + [d] <==> g.n in drops
    {
      LaterDropsChangeNothing(constant, drops, d, g.n);
    }
  }

  lemma AgreeAfterInput(half: nat, initialOutput: nat, constant: int, drops: seq<int>, top: int, newTop: int,
                        given: seq<Given>, g: Given)
    requires half > 0 && (top <= newTop || given == []) && g.n <= newTop
    requires Agree(half, initialOutput, constant, drops, top, given)
    requires g.n !in drops && g.output == Wrap(half, Wrap(half, Renumbered(constant, drops, g.n)) + initialOutput)
    ensures Agree(half, initialOutput, constant, drops, newTop, given + [g])
  {
    hide Wrap, Renumbered;
  }

  lemma AgreeLater(half: nat, initialOutput: nat, constant: int, drops: seq<int>, top: int, newTop: int,
                   given: seq<Given>)
    requires half > 0 && (top <= newTop || given == []) && Agree(half, initialOutput, constant, drops, top, given)
    ensures Agree(half, initialOutput, constant, drops, newTop, given)
  {
    hide Wrap, Renumbered;
  }

  lemma WrapSubtracts(half: nat, b: int, a: int)
    requires half > 0
    ensures Wrap(half, b - Wrap(half, a)) == Wrap(half, b - a)
  {
    WrapUnique(half, b - Wrap(half, a), b - a, a / (2 * half));
  }

  lemma OutputDistance(half: nat, initialOutput: nat, a: int, b: int)
    requires half > 0
    ensures Wrap(half, Wrap(half, Wrap(half, b) + initialOutput) - Wrap(half, Wrap(half, a) + initialOutput))
            == Wrap(half, b - a)
  {
    hide Wrap;
    var x, y := b + initialOutput, a + initialOutput;
    var r: int := Wrap(half, y);
    WrapAdds(half, a, initialOutput);
    WrapAdds(half, b, initialOutput);
    WrapAdds(half, x, -r);
    WrapSubtracts(half, x, y);
  }

  lemma OutputOf(half: nat, initialOutput: nat, constant: int, drops: seq<int>, top: int, given: seq<Given>, g: Given)
    requires half > 0 && Agree(half, initialOutput, constant, drops, top, given) && g in given
    ensures g.output == Wrap(half, Wrap(half, Renumbered(constant, drops, g.n)) + initialOutput)
  {
  }

  /** Any two outputs of a run, whichever was given first and whatever was dropped in between, are as far
      apart as there are inputs between them that were not dropped in the whole run. */
  lemma OutputsAreGapFree(half: nat, initialOutput: nat, constant: int, drops: seq<int>, top: int, given: seq<Given>,
                          g: Given, h: Given)
    requires half > 0 && Agree(half, initialOutput, constant, drops, top, given) && Ascending(drops)
    requires g in given && h in given && g.n <= h.n
    ensures Wrap(half, h.output - g.output) == Wrap(half, Undropped(drops, g.n, h.n))
  {
    hide Wrap, Renumbered, Undropped, Agree, Ascending;
    RenumberingIsGapFree(constant, drops, g.n, h.n);
    OutputOf(half, initialOutput, constant, drops, top, given, g);
    OutputOf(half, initialOutput, constant, drops, top, given, h);
    OutputDistance(half, initialOutput, Renumbered(constant, drops, g.n), Renumbered(constant, drops, h.n));
  }

  // ---------------------------------------------------------------- the manager

  lemma LiveIsRecent(half: nat, drops: seq<int>, folded: nat, top: int)
    requires half > 0 && folded <= |drops| && AllLive(half, drops[folded..], top)
    ensures forall k | folded <= k < |drops| :: drops[k] <= top < drops[k] + 2 * half
  {
    forall k | folded <= k < |drops| ensures drops[k] <= top < drops[k] + 2 * half {
      assert Live(half, drops[folded..][k - folded], top);
    }
  }

  lemma WrapAllTail(half: nat, s: seq<int>, k: nat)
    requires half > 0 && k < |s|
    ensures WrapAll(half, s[k..])[0] == Wrap(half, s[k])
    ensures WrapAll(half, s[k..])[1..] == WrapAll(half, s[k + 1..])
  {
    hide Wrap;
  }

  lemma RestIsLive(half: nat, s: seq<int>, top: int)
    requires half > 0 && Ascending(s) && |s| > 0 && Live(half, s[0], top)
    requires forall k | 0 <= k < |s| :: s[k] <= top
    ensures AllLive(half, s, top)
  {
    forall k | 0 <= k < |s| ensures Live(half, s[k], top) {
      LiveFromThen(half, s[0], s[k], top);
    }
  }

  function Inserted(half: nat, s: seq<nat>, key: nat): seq<nat>
    requires half > 0
  {
    var at := LowerBound(half, s, key, 0);
    if at < |s| && !Lower(half, key, s[at]) then s else s[..at] + [key] + s[at..]
  }

  /** A key that is there is not inserted again. */
  lemma InsertedOnce(half: nat, s: seq<nat>, key: nat)
    requires half > 0
    ensures var at := LowerBound(half, s, key, 0);
            at < |s| && s[at] == key ==> Inserted(half, s, key) == s
  {
  }

  lemma {:induction false} LowerBoundAtEnd(half: nat, s: seq<nat>, key: nat, i: nat)
    requires half > 0 && i <= |s| && forall k | 0 <= k < |s| :: Lower(half, s[k], key)
    ensures LowerBound(half, s, key, i) == |s|
    ensures Inserted(half, s, key) == s + [key] || i > 0
    decreases |s| - i
  {
    if i < |s| {
      LowerBoundAtEnd(half, s, key, i + 1);
    }
  }

  /** Where an input lies on the line of numbers, given the highest one. */
  lemma NearestNumber(half: nat, input: nat, top: int)
    requires half > 0 && input < 2 * half
    ensures var last := Wrap(half, top);
            if Higher(half, input, last) then
              var n := top + Wrap(half, input - last);
              top < n <= top + half && Wrap(half, n) == input && (n == top + half ==> input < last)
            else
              var n := top - Wrap(half, last - input);
              Live(half, n, top) && Wrap(half, n) == input
  {
    var m, last := 2 * half, Wrap(half, top);
    var ahead := if input >= last then input - last else input - last + m;
    var behind := if last >= input then last - input else last - input + m;
    WrapIsUnique(half, input - last, ahead, if input >= last then 0 else -1);
    WrapIsUnique(half, last - input, behind, if last >= input then 0 else -1);
    WrapAdds(half, top, input - last);
    WrapSmall(half, input);
    WrapUnique(half, top + ahead, top + (input - last), if input >= last then 0 else 1);
    WrapUnique(half, top - behind, top + (input - last), if last >= input then 0 else -1);
    hide Wrap;
  }

  /** What is folded stays folded, and what is live stays within a range, when the top moves up. */
  lemma StaysFolded(half: nat, drops: seq<int>, folded: nat, top: int, n: int)
    requires half > 0 && folded <= |drops| && AllLive(half, drops[folded..], top)
    requires forall k | 0 <= k < folded :: drops[k] <= top && !Live(half, drops[k], top)
    requires top < n <= top + half && (n == top + half ==> Wrap(half, n) < Wrap(half, top))
    ensures forall k | 0 <= k < folded :: drops[k] <= n && !Live(half, drops[k], n)
    ensures forall k | folded <= k < |drops| :: drops[k] <= n < drops[k] + 2 * half
  {
    forall k | 0 <= k < folded ensures drops[k] <= n && !Live(half, drops[k], n) {
      StaleIsBelow(half, drops[k], top, n, n);
    }
    forall k | folded <= k < |drops| ensures drops[k] <= n < drops[k] + 2 * half {
      assert Live(half, drops[folded..][k - folded], top);
      if n == drops[k] + 2 * half {
        WrapUnique(half, n, drops[k], 1);
      }
    }
  }

  lemma AppendAscends(half: nat, drops: seq<int>, folded: nat, top: int, n: int)
    requires half > 0 && folded <= |drops| && Ascending(drops) && AllLive(half, drops[folded..], top) && top < n
    requires forall k | 0 <= k < folded :: drops[k] <= top
    ensures Ascending(drops + [n])
  {
    LiveIsRecent(half, drops, folded, top);
  }

  lemma AppendLive(half: nat, drops: seq<int>, folded: nat, n: int)
    requires half > 0 && folded <= |drops|
    ensures WrapAll(half, (drops + [n])[folded..]) == WrapAll(half, drops[folded..]) + [Wrap(half, n)]
  {
    hide Wrap;
  }

  lemma OutputIsRenumbered(half: nat, constant: int, folded: int, lower: int, n: int, input: nat, inputBase: nat)
    requires half > 0 && input == Wrap(half, n)
    requires var base := Wrap(half, constant - folded);
             (inputBase == base && lower == 0) || inputBase == Wrap(half, base - lower)
    ensures Wrap(half, input + inputBase) == Wrap(half, n + constant - (folded + lower))
  {
    hide Wrap;
    var t := constant - folded - lower;
    WrapAdds(half, constant - folded, -lower);
    assert inputBase == Wrap(half, t);
    WrapAdds(half, t, input);
    WrapAdds(half, n, t);
    assert input + inputBase == inputBase + input && t + input == input + t;
    assert n + constant - (folded + lower) == n + t;
  }

  /** Where the search for an input ends, and what that says about it. */
  lemma InputPlace(half: nat, drops: seq<int>, folded: nat, top: int, n: int, dropped: seq<nat>, input: nat)
    requires half > 0 && folded <= |drops| && Ascending(drops) && AllLive(half, drops[folded..], top)
    requires forall k | 0 <= k < folded :: drops[k] <= top && !Live(half, drops[k], top)
    requires dropped == WrapAll(half, drops[folded..]) && Live(half, n, top) && input == Wrap(half, n)
    ensures var at := LowerBound(half, dropped, input, 0);
            && Below(drops, n) == folded + at
            && (at < |dropped| && dropped[at] == input <==> n in drops)
  {
    var live := drops[folded..];
    forall k | 0 <= k < folded ensures drops[k] < n {
      StaleIsBelow(half, drops[k], top, top, n);
    }
    LowerBoundCounts(half, live, n, top, 0);
    BelowSplits(drops, folded, n);
    assert n in drops <==> n in live by {
      assert drops == drops[..folded] + live;
    }
  }

  lemma RightBase(half: nat, constant: int, drops: seq<int>, folded: nat, top: int, n: int,
                  dropped: seq<nat>, input: nat, base: nat)
    requires half > 0 && folded <= |drops| && Ascending(drops) && AllLive(half, drops[folded..], top)
    requires forall k | 0 <= k < folded :: drops[k] <= top && !Live(half, drops[k], top)
    requires dropped == WrapAll(half, drops[folded..]) && Live(half, n, top) && input == Wrap(half, n)
    requires base == Wrap(half, constant - folded)
    ensures var at, target := LowerBound(half, dropped, input, 0), Wrap(half, Renumbered(constant, drops, n));
            && (at < |dropped| && dropped[at] == input <==> n in drops)
            && (|dropped| == 0 ==> Wrap(half, input + base) == target)
            && Wrap(half, input + Wrap(half, base - (|dropped| - (|dropped| - at)))) == target
  {
    hide Wrap, LowerBound, Below, WrapAll, AllLive, Live, Ascending;
    InputPlace(half, drops, folded, top, n, dropped, input);
    var at := LowerBound(half, dropped, input, 0);
    OutputIsRenumbered(half, constant, folded, at, n, input, Wrap(half, base - at));
    if |dropped| == 0 {
      OutputIsRenumbered(half, constant, folded, 0, n, input, base);
    }
    assert n + constant - (folded + at) == Renumbered(constant, drops, n);
  }

  class SeqManager {
    /** MaxValue is 2 * half - 1. */
    const half: nat
    const initialOutput: nat
    var started: bool
    var base: nat
    var maxOutput: nat
    var maxInput: nat
    var dropped: seq<nat>

    /** The highest input, the constant between inputs and outputs, all that was dropped since they
        were last set, and how much of that is folded into base. */
    ghost var top: int
    ghost var constant: int
    ghost var drops: seq<int>
    ghost var folded: nat

    /** The inputs of the run since then that were not refused, and their outputs. */
    ghost var given: seq<Given>

    /** Base and the live set stand for all that was dropped. */
    ghost predicate Folds(top: int)
      reads this`base, this`dropped, this`constant, this`drops, this`folded
    {
      && half > 0 && folded <= |drops| && Ascending(drops)
      && base == Wrap(half, constant - folded)
      && dropped == WrapAll(half, drops[folded..])
      && (forall k | 0 <= k < folded :: drops[k] <= top && !Live(half, drops[k], top))
    }

    ghost predicate Valid()
      reads this
    {
      && Folds(top) && AllLive(half, drops[folded..], top)
      && maxInput < 2 * half && maxOutput < 2 * half && initialOutput < 2 * half
      && (started ==> maxInput == Wrap(half, top))
      && (!started ==> drops == [] && given == [])
      && Agree(half, initialOutput, constant, drops, top, given)
    }

    constructor (half: nat, initialOutput: nat)
      requires 0 < half && initialOutput < 2 * half
      ensures Valid() && !started && drops == [] && Wrap(half, constant) == 0
      ensures this.half == half && this.initialOutput == initialOutput && given == []
    {
      WrapSmall(half, 0);
      hide Wrap, WrapAll;
      this.half, this.initialOutput := half, initialOutput;
      started, base, maxOutput, maxInput, dropped := false, 0, 0, 0, [];
      top, constant, drops, folded, given := 0, 0, [], 0, [];
    }

    /** From now on the given input stands for the highest output so far. */
    method Sync(input: nat)
      requires Valid() && input < 2 * half
      modifies this
      ensures Valid() && started == old(started) && drops == [] && top == input && given == []
      ensures Wrap(half, Renumbered(constant, drops, input)) == maxOutput == old(maxOutput)
    {
      WrapSmall(half, input);
      WrapSmall(half, maxOutput);
      hide Wrap;
      base := Wrap(half, maxOutput - input);
      maxInput := input;
      dropped := [];
      top, constant, drops, folded, given := input, maxOutput - input, [], 0, [];
    }

    /** The number an input has, counting on from the highest one by the circular comparator. */
    ghost function NumberOf(input: nat): int
      requires half > 0
      reads this`started, this`maxInput, this`top
    {
      if !started then input
      else if Higher(half, input, maxInput) then top + Wrap(half, input - maxInput)
      else top - Wrap(half, maxInput - input)
    }

    /** Folds what has become stale into base. */
    method ClearDropped()
      requires Folds(top) && maxInput == Wrap(half, top)
      requires forall k | folded <= k < |drops| :: drops[k] <= top < drops[k] + 2 * half
      modifies this`base, this`dropped, this`folded
      ensures Folds(top) && AllLive(half, drops[folded..], top)
    {
      hide Wrap, Live, Higher;
      if |dropped| == 0 {
        return;
      }
      var previousDroppedSize := |dropped|;
      ghost var before := folded;
      while |dropped| > 0
        invariant before <= folded <= |drops| && dropped == WrapAll(half, drops[folded..])
        invariant previousDroppedSize - |dropped| == folded - before && base == Wrap(half, constant - before)
        invariant forall k | 0 <= k < folded :: drops[k] <= top && !Live(half, drops[k], top)
        decreases |dropped|
      {
        ghost var live := drops[folded..];
        HigherIsStale(half, live[0], top);
        if !Higher(half, dropped[0], maxInput) {
          RestIsLive(half, live, top);
          break;
        }
        WrapAllTail(half, drops, folded);
        dropped := dropped[1..];
        folded := folded + 1;
      }
      WrapAdds(half, constant - before, -(previousDroppedSize - |dropped|));
      base := Wrap(half, base - (previousDroppedSize - |dropped|));
    }

    /** Any two outputs since the last synchronisation are as far apart as there are undropped inputs
        between them. */
    lemma OutputsOfTheRun(g: Given, h: Given)
      requires Valid() && g in given && h in given && g.n <= h.n
      ensures Wrap(half, h.output - g.output) == Wrap(half, Undropped(drops, g.n, h.n))
    {
      OutputsAreGapFree(half, initialOutput, constant, drops, top, given, g, h);
    }

    /** Drops an input, if it is higher than all before it. */
    method Drop(input: nat)
      requires Valid() && started && input < 2 * half
      requires Higher(half, input, maxInput) ==> forall k | 0 <= k < |dropped| :: Lower(half, dropped[k], input)
      modifies this
      ensures Valid() && started && constant == old(constant) && maxOutput == old(maxOutput) && given == old(given)
      ensures var n := old(NumberOf(input));
              if n > old(top) then top == n && drops == old(drops) + [n]
              else top == old(top) && drops == old(drops)
    {
      NearestNumber(half, input, top);
      if Higher(half, input, maxInput) {
        AgreeAfterDrop(half, initialOutput, constant, drops, top, given, NumberOf(input));
        hide Agree;
        AddDropped(input, NumberOf(input));
      }
    }

    /** Takes a new highest input into the dropped ones. */
    method AddDropped(input: nat, ghost n: int)
      requires Valid() && input < 2 * half && input == Wrap(half, n)
      requires top < n <= top + half && (n == top + half ==> input < Wrap(half, top))
      requires forall k | 0 <= k < |dropped| :: Lower(half, dropped[k], input)
      modifies this`maxInput, this`dropped, this`base, this`folded, this`top, this`drops
      ensures Folds(top) && AllLive(half, drops[folded..], top)
      ensures maxInput == input && top == n && drops == old(drops) + [n]
    {
      hide Wrap, Live, Lower, WrapAll, AllLive, Inserted, LowerBound, Ascending;
      AppendAscends(half, drops, folded, top, n);
      StaysFolded(half, drops, folded, top, n);
      AppendLive(half, drops, folded, n);
      LowerBoundAtEnd(half, dropped, input, 0);
      maxInput := input;
      dropped := Inserted(half, dropped, input);
      top, drops := n, drops + [n];
      ClearDropped();
    }

    /** Renumbers an input, unless it was dropped. */
    method Input(input: nat) returns (ok: bool, output: nat)
      requires Valid() && input < 2 * half
      modifies this
      ensures Valid() && constant == old(constant) && drops == old(drops)
      ensures var n := old(NumberOf(input));
              var renumbered := Wrap(half, Renumbered(constant, drops, n));
              && (ok <==> n !in drops)
              && top == (if old(started) && n <= old(top) then old(top) else n)
              && started == (old(started) || ok)
              && (ok ==> output == Wrap(half, renumbered + initialOutput))
              && maxOutput == (if !ok || (old(started) && !Higher(half, renumbered, old(maxOutput))) then old(maxOutput)
                               else renumbered)
              && given == old(given) + if ok then [Given(n, output)] else []
    {
      ghost var n, before := NumberOf(input), top;
      hide Agree;
      Advance(input, n);
      var inputBase;
      output := 0;
      ok, inputBase := BaseFor(input, n);
      if ok {
        output := Emit(input, inputBase);
        AgreeAfterInput(half, initialOutput, constant, drops, before, top, given, Given(n, output));
        given := given + [Given(n, output)];
      } else {
        AgreeLater(half, initialOutput, constant, drops, before, top, given);
      }
    }

    /** Whether an input was not dropped, and if so what to add to it. */
    method BaseFor(input: nat, ghost n: int) returns (ok: bool, inputBase: nat)
      requires Folds(top) && AllLive(half, drops[folded..], top) && Live(half, n, top) && input == Wrap(half, n)
      ensures ok <==> n !in drops
      ensures ok ==> Wrap(half, input + inputBase) == Wrap(half, Renumbered(constant, drops, n))
    {
      hide Wrap, Live, WrapAll, AllLive, Ascending, LowerBound, Below, Renumbered;
      RightBase(half, constant, drops, folded, top, n, dropped, input, base);
      hide *;
      if |dropped| == 0 {
        return true, base;
      }
      var at := LowerBound(half, dropped, input, 0);
      if at < |dropped| && dropped[at] == input {
        return false, 0;
      }
      return true, Wrap(half, base - (|dropped| - (|dropped| - at)));
    }

    /** Works the output out and keeps the maxima. */
    method Emit(input: nat, inputBase: nat) returns (output: nat)
      requires half > 0 && input < 2 * half && maxInput < 2 * half && maxOutput < 2 * half
      modifies this`started, this`maxInput, this`maxOutput
      ensures started && maxInput < 2 * half && maxOutput < 2 * half
      ensures maxInput == if !old(started) || Higher(half, input, old(maxInput)) then input else old(maxInput)
      ensures var plain := Wrap(half, input + inputBase);
              && output == Wrap(half, plain + initialOutput)
              && maxOutput == if !old(started) || Higher(half, plain, old(maxOutput)) then plain else old(maxOutput)
    {
      hide Wrap, Higher;
      output := Wrap(half, input + inputBase);
      if !started {
        started, maxInput, maxOutput := true, input, output;
      } else {
        if Higher(half, input, maxInput) {
          maxInput := input;
        }
        if Higher(half, output, maxOutput) {
          maxOutput := output;
        }
      }
      output := Wrap(half, output + initialOutput);
    }

    /** Moves the top up to an input and, with dropped inputs to consider, cleans them up. */
    method Advance(input: nat, ghost n: int)
      requires Valid() && input < 2 * half && n == NumberOf(input)
      modifies this`maxInput, this`base, this`dropped, this`folded, this`top
      ensures Folds(top) && AllLive(half, drops[folded..], top) && Live(half, n, top) && Wrap(half, n) == input
      ensures top == (if old(started) && n <= old(top) then old(top) else n)
      ensures maxInput < 2 * half
      ensures started ==> maxInput == Wrap(half, top) || (|dropped| == 0 && top == n && Higher(half, input, maxInput))
      ensures started && Higher(half, input, maxInput) ==> top == n
    {
      NearestNumber(half, input, top);
      WrapSmall(half, input);
      if !started || Higher(half, input, maxInput) {
        if started {
          StaysFolded(half, drops, folded, top, n);
        }
        top := n;
      } else {
        LiveIsRecent(half, drops, folded, top);
      }
      hide Wrap, Live, Higher, WrapAll;
      if |dropped| > 0 {
        if started && Higher(half, input, maxInput) {
          maxInput := input;
        }
        ClearDropped();
      }
    }
  }
}

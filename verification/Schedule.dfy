/** `Check_Time`, by which the report scheduler (Ibao.hpp) tells that a recurring instant
    has gone by. Times come in as parameters. */
module Schedule {

  const INT_MIN: int := -0x8000_0000
  const INT_MAX: int := 0x7FFF_FFFF

  /** The division of C: towards zero. */
  function Quotient(x: int, cycle: int): int
    requires cycle != 0
  {
    if cycle < 0 then -QuotientBy(x, -cycle) else QuotientBy(x, cycle)
  }

  function QuotientBy(x: int, cycle: int): int
    requires cycle > 0
  {
    if x >= 0 then x / cycle else -((-x) / cycle)
  }

  /** Assignment of a 64-bit value to an int. */
  function Narrowed(x: int): int {
    (x - INT_MIN) % 0x1_0000_0000 + INT_MIN
  }

  /** `Check_Time`: whether it fires; the caller's `last` becomes `now` when it does. */
  predicate Fires(last: int, now: int, cycle: int, delays: int) {
    cycle != 0 && Quotient(now - delays, cycle) >= Narrowed(Quotient(last - delays, cycle)) + 1
  }

  method CheckTime(last: int, now: int, cycle: int, delays: int) returns (fires: bool, newLast: int)
    ensures fires == Fires(last, now, cycle, delays)
    ensures newLast == if fires then now else last
    ensures Fits(last, cycle, delays) ==> (fires <==> exists n :: Seen(n, last, now, cycle, delays))
  {
    if Fits(last, cycle, delays) {
      FiresExactly(last, now, cycle, delays);
    }
    hide Seen, Fits;
    newLast := last;
    if cycle == 0 {
      return false, newLast;
    }
    var nn := Narrowed(Quotient(last - delays, cycle));
    if Quotient(now - delays, cycle) >= nn + 1 {
      return true, now;
    }
    return false, newLast;
  }

  /** The value itself where it is an int, and always the same modulo 2^32. */
  lemma NarrowedIs(x: int)
    ensures INT_MIN <= Narrowed(x) <= INT_MAX && (Narrowed(x) - x) % 0x1_0000_0000 == 0
    ensures INT_MIN <= x <= INT_MAX <==> Narrowed(x) == x
  {
  }

  predicate FitsDown(last: int, cycle: int, delays: int) {
    cycle < 0 && INT_MIN <= Quotient(last - delays, cycle) < INT_MAX
  }

  /** With a negative cycle the quotient only falls: the check never fires. */
  lemma NeverFires(last: int, now: int, cycle: int, delays: int)
    requires FitsDown(last, cycle, delays) && last <= now
    ensures !Fires(last, now, cycle, delays)
  {
    PassedMonotone(last, now, -cycle, delays);
    hide QuotientBy;
  }

  // ---------- boundaries ----------

  /** The instants at which something is due. */
  function Boundary(n: int, cycle: int, delays: int): int {
    n * cycle + delays
  }

  /** The check is made for these numbers only. */
  predicate Fits(last: int, cycle: int, delays: int) {
    cycle > 0 && INT_MIN <= QuotientBy(last - delays, cycle) < INT_MAX
  }

  ghost predicate Due(after: int, upTo: int, cycle: int, delays: int) {
    exists n :: after < Boundary(n, cycle, delays) <= upTo
  }

  lemma Division(x: int, cycle: int)
    requires cycle > 0 && x >= 0
    ensures x / cycle * cycle <= x < (x / cycle + 1) * cycle
  {
  }

  lemma Ordered(a: int, b: int, cycle: int)
    requires cycle > 0
    ensures a < b <==> a * cycle < b * cycle
    ensures a <= b <==> a * cycle <= b * cycle
  {
  }

  /** From the first boundary on, the quotient grows exactly when a boundary is passed. */
  lemma QuotientGrows(a: int, b: int, cycle: int)
    requires cycle > 0 && 0 <= a <= b
    ensures a / cycle <= b / cycle
    ensures a / cycle < b / cycle <==> exists n :: a < Boundary(n, cycle, 0) <= b
  {
    Division(a, cycle);
    Division(b, cycle);
    var p, q := a / cycle, b / cycle;
    Ordered(q + 1, p, cycle);
    Ordered(p + 1, q, cycle);
    if p < q {
      assert a < Boundary(q, cycle, 0) <= b;
    }
    if n :| a < Boundary(n, cycle, 0) <= b {
      Ordered(p, n, cycle);
      Ordered(n, q + 1, cycle);
    }
  }

  lemma DueShifted(last: int, now: int, cycle: int, delays: int)
    ensures Due(last, now, cycle, delays) <==> exists n :: last - delays < Boundary(n, cycle, 0) <= now - delays
  {
    if n :| last < Boundary(n, cycle, delays) <= now {
      assert last - delays < Boundary(n, cycle, 0) <= now - delays;
    }
    if n :| last - delays < Boundary(n, cycle, 0) <= now - delays {
      assert last < Boundary(n, cycle, delays) <= now;
    }
  }

  /** Before `delays` the boundary at `delays` itself is missed: truncation counts both
      sides of it as 0. */
  lemma FirstBoundaryMissed(cycle: int, delays: int)
    requires cycle > 1
    ensures Due(delays - 1, delays, cycle, delays) && !Fires(delays - 1, delays, cycle, delays)
  {
    assert Boundary(0, cycle, delays) == delays;
    assert QuotientBy(-1, cycle) == 0;
  }

  /** The number of the latest boundary, counted from `delays`. */
  function Passed(t: int, cycle: int, delays: int): int
    requires cycle > 0
  {
    QuotientBy(t - delays, cycle)
  }

  lemma PassedGrows(a: int, b: int, cycle: int, delays: int)
    requires cycle > 0 && delays <= a <= b
    ensures Passed(a, cycle, delays) <= Passed(b, cycle, delays)
    ensures Passed(a, cycle, delays) < Passed(b, cycle, delays) <==> Due(a, b, cycle, delays)
    ensures 0 <= Passed(a, cycle, delays)
  {
    hide Due, Boundary;
    QuotientGrows(a - delays, b - delays, cycle);
    DueShifted(a, b, cycle, delays);
    Division(a - delays, cycle);
  }

  lemma FiresWhenPassed(last: int, now: int, cycle: int, delays: int)
    requires Fits(last, cycle, delays)
    ensures Fires(last, now, cycle, delays) <==> Passed(last, cycle, delays) < Passed(now, cycle, delays)
  {
    hide QuotientBy;
  }

  // ---------- times before `delays` ----------

  /** Boundary `n` makes a check fire: those after `delays` when they are reached, those
      before it one second after, and `delays` itself never. */
  ghost predicate Seen(n: int, last: int, now: int, cycle: int, delays: int) {
    var t := Boundary(n, cycle, delays);
    (n >= 1 && last < t <= now) || (n <= -1 && last <= t < now)
  }

  lemma SeenAbove(a: int, b: int, cycle: int)
    requires cycle > 0 && 0 <= a <= b
    ensures QuotientBy(a, cycle) < QuotientBy(b, cycle) <==> exists n :: Seen(n, a, b, cycle, 0)
  {
    QuotientGrows(a, b, cycle);
    if n :| a < Boundary(n, cycle, 0) <= b {
      Ordered(0, n, cycle);
      assert Seen(n, a, b, cycle, 0);
    }
    if n :| Seen(n, a, b, cycle, 0) {
      Ordered(n, 0, cycle);
      assert a < Boundary(n, cycle, 0) <= b;
    }
  }

  lemma SeenBelow(a: int, b: int, cycle: int)
    requires cycle > 0 && a <= b < 0
    ensures QuotientBy(a, cycle) < QuotientBy(b, cycle) <==> exists n :: Seen(n, a, b, cycle, 0)
  {
    var low, high := -b, -a;
    SeenAbove(low, high, cycle);
    if m :| Seen(m, low, high, cycle, 0) {
      Mirrored(m, a, b, cycle);
    }
    if n :| Seen(n, a, b, cycle, 0) {
      Mirrored(-n, a, b, cycle);
    }
  }

  lemma Mirrored(m: int, a: int, b: int, cycle: int)
    requires cycle > 0
    ensures Seen(m, -b, -a, cycle, 0) <==> Seen(-m, a, b, cycle, 0)
  {
    assert Boundary(-m, cycle, 0) == -Boundary(m, cycle, 0);
  }

  lemma SeenAcross(a: int, b: int, cycle: int)
    requires cycle > 0 && a < 0 <= b
    ensures QuotientBy(a, cycle) < QuotientBy(b, cycle) <==> exists n :: Seen(n, a, b, cycle, 0)
  {
    var p, q := QuotientBy(a, cycle), QuotientBy(b, cycle);
    OnSides(a, b, cycle);
    hide QuotientBy;
    if q >= 1 {
      assert Seen(q, a, b, cycle, 0);
    }
    if p <= -1 {
      assert Seen(p, a, b, cycle, 0);
    }
    if n :| Seen(n, a, b, cycle, 0) {
      NoneBeyond(n, a, b, cycle);
    }
  }

  lemma OnSides(a: int, b: int, cycle: int)
    requires cycle > 0 && a < 0 <= b
    ensures QuotientBy(a, cycle) <= 0 <= QuotientBy(b, cycle)
    ensures a <= Boundary(QuotientBy(a, cycle), cycle, 0) && Boundary(QuotientBy(b, cycle), cycle, 0) <= b
    ensures QuotientBy(a, cycle) <= -1 ==> Boundary(QuotientBy(a, cycle), cycle, 0) < 0
    ensures QuotientBy(b, cycle) >= 1 ==> Boundary(QuotientBy(b, cycle), cycle, 0) > 0
  {
    hide Boundary;
    Downwards(-a, cycle);
    Downwards(b, cycle);
    Negated((-a) / cycle, cycle);
  }

  lemma Negated(q: int, cycle: int)
    ensures Boundary(-q, cycle, 0) == -Boundary(q, cycle, 0)
  {
  }

  lemma Downwards(x: int, cycle: int)
    requires cycle > 0 && x >= 0
    ensures x / cycle >= 0 && 0 <= Boundary(x / cycle, cycle, 0) <= x
    ensures x / cycle >= 1 ==> Boundary(x / cycle, cycle, 0) > 0
  {
    var q := x / cycle;
    Division(x, cycle);
    Ordered(0, q, cycle);
    Ordered(q, 0, cycle);
  }

  lemma NoneBeyond(n: int, a: int, b: int, cycle: int)
    requires cycle > 0 && a < 0 <= b && Seen(n, a, b, cycle, 0)
    ensures n >= 1 ==> QuotientBy(b, cycle) >= 1
    ensures n <= -1 ==> QuotientBy(a, cycle) <= -1
  {
    if n >= 1 {
      Division(b, cycle);
      Ordered(n, b / cycle + 1, cycle);
    } else {
      Division(-a, cycle);
      assert -n * cycle == -(n * cycle);
      Ordered(-n, (-a) / cycle + 1, cycle);
    }
  }

  /** A single check, exactly, for all times, also when the clock goes back. */
  lemma FiresExactly(last: int, now: int, cycle: int, delays: int)
    requires Fits(last, cycle, delays)
    ensures Fires(last, now, cycle, delays) <==> exists n :: Seen(n, last, now, cycle, delays)
  {
    if last <= now {
      FiresForward(last, now, cycle, delays);
    } else {
      PassedMonotone(now, last, cycle, delays);
      FiresWhenPassed(last, now, cycle, delays);
    }
    hide Passed, Fires;
  }

  /** Past the range of an int the narrowed quotient is too small: every check fires. */
  lemma FiresBeyond(last: int, now: int, cycle: int, delays: int)
    requires cycle > 0 && last <= now && INT_MAX < Passed(last, cycle, delays)
    ensures Fires(last, now, cycle, delays)
  {
    PassedMonotone(last, now, cycle, delays);
    NarrowedIs(Passed(last, cycle, delays));
    hide QuotientBy, Narrowed;
  }

  lemma FiresForward(last: int, now: int, cycle: int, delays: int)
    requires Fits(last, cycle, delays) && last <= now
    ensures Fires(last, now, cycle, delays) <==> exists n :: Seen(n, last, now, cycle, delays)
  {
    hide QuotientBy;
    var a, b := last - delays, now - delays;
    if a >= 0 {
      SeenAbove(a, b, cycle);
    } else if b < 0 {
      SeenBelow(a, b, cycle);
    } else {
      SeenAcross(a, b, cycle);
    }
    if n :| Seen(n, a, b, cycle, 0) {
      assert Seen(n, last, now, cycle, delays);
    }
    if n :| Seen(n, last, now, cycle, delays) {
      assert Seen(n, a, b, cycle, 0);
    }
  }

  /** The truncated quotient never decreases. */
  lemma PassedMonotone(a: int, b: int, cycle: int, delays: int)
    requires cycle > 0 && a <= b
    ensures Passed(a, cycle, delays) <= Passed(b, cycle, delays)
  {
    var x, y := a - delays, b - delays;
    if x >= 0 {
      QuotientGrows(x, y, cycle);
    } else if y < 0 {
      QuotientGrows(-y, -x, cycle);
    } else {
      OnSides(x, y, cycle);
    }
  }

  // ---------- whole runs of one check ----------

  /** `last` after the polls. */
  function LastAfter(last: int, times: seq<int>, cycle: int, delays: int): int {
    if times == [] then last
    else
      var n := |times| - 1;
      var before := LastAfter(last, times[..n], cycle, delays);
      if Fires(before, times[n], cycle, delays) then times[n] else before
  }

  ghost predicate Nondecreasing(start: int, times: seq<int>) {
    && (times != [] ==> start <= times[0])
    && forall i :: 0 < i < |times| ==> times[i - 1] <= times[i]
  }

  function Latest(start: int, times: seq<int>): int {
    if times == [] then start else times[|times| - 1]
  }

  lemma {:induction false} LatestLater(start: int, times: seq<int>)
    requires Nondecreasing(start, times)
    ensures start <= Latest(start, times)
    decreases |times|
  {
    if |times| > 1 {
      LatestLater(start, times[..|times| - 1]);
    }
  }

  /** `last` may be long ago, but it is in the same cycle as the latest poll. */
  lemma {:induction false} LastKeepsUp(start: int, times: seq<int>, cycle: int, delays: int)
    requires cycle > 0 && Nondecreasing(start, times)
    requires INT_MIN <= Passed(start, cycle, delays) && Passed(Latest(start, times), cycle, delays) < INT_MAX
    ensures var last := LastAfter(start, times, cycle, delays);
            && start <= last <= Latest(start, times)
            && Passed(last, cycle, delays) == Passed(Latest(start, times), cycle, delays)
            && Fits(last, cycle, delays)
    decreases |times|
  {
    hide Passed, Fires;
    if times != [] {
      var n := |times| - 1;
      var now, prev := times[n], Latest(start, times[..n]);
      LatestLater(start, times[..n]);
      PassedMonotone(prev, now, cycle, delays);
      LastKeepsUp(start, times[..n], cycle, delays);
      FiresWhenPassed(LastAfter(start, times[..n], cycle, delays), now, cycle, delays);
    }
    LatestLater(start, times);
    PassedMonotone(start, Latest(start, times), cycle, delays);
    PassedFits(LastAfter(start, times, cycle, delays), cycle, delays);
  }

  lemma PassedFits(t: int, cycle: int, delays: int)
    requires cycle > 0 && INT_MIN <= Passed(t, cycle, delays) < INT_MAX
    ensures Fits(t, cycle, delays)
  {
  }

  /** Over any nondecreasing polls, the next one fires exactly when a boundary is seen
      between it and the poll before, although `last` may be older than that. */
  lemma RunFiresExactly(start: int, times: seq<int>, now: int, cycle: int, delays: int)
    requires cycle > 0 && Nondecreasing(start, times) && Latest(start, times) <= now
    requires INT_MIN <= Passed(start, cycle, delays) && Passed(now, cycle, delays) < INT_MAX
    ensures Fires(LastAfter(start, times, cycle, delays), now, cycle, delays)
            <==> exists n :: Seen(n, Latest(start, times), now, cycle, delays)
  {
    hide Passed, Fires, Seen;
    var prev := Latest(start, times);
    LatestLater(start, times);
    PassedMonotone(start, prev, cycle, delays);
    PassedMonotone(prev, now, cycle, delays);
    LastKeepsUp(start, times, cycle, delays);
    PassedFits(prev, cycle, delays);
    FiresWhenPassed(LastAfter(start, times, cycle, delays), now, cycle, delays);
    FiresWhenPassed(prev, now, cycle, delays);
    FiresExactly(prev, now, cycle, delays);
  }

  /** From `delays` on these are all boundaries: none is missed and none fires twice. */
  lemma FiresOncePerBoundary(start: int, times: seq<int>, now: int, cycle: int, delays: int)
    requires cycle > 0 && delays <= start && Nondecreasing(start, times) && Latest(start, times) <= now
    requires Passed(now, cycle, delays) < INT_MAX
    ensures Fires(LastAfter(start, times, cycle, delays), now, cycle, delays)
            <==> Due(Latest(start, times), now, cycle, delays)
  {
    hide Passed, Due, Fires, Seen;
    var prev := Latest(start, times);
    LatestLater(start, times);
    PassedGrows(start, prev, cycle, delays);
    PassedGrows(prev, now, cycle, delays);
    RunFiresExactly(start, times, now, cycle, delays);
    PassedFits(prev, cycle, delays);
    FiresWhenPassed(prev, now, cycle, delays);
    FiresExactly(prev, now, cycle, delays);
  }
}

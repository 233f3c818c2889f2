/** The rainfall accumulators (rain.cpp). Values are unbounded here; the largest 64-bit
    value means that an item is empty. */
module Rain {
  import opened Encoding

  const INVALID: int := 0x7FFF_FFFF_FFFF_FFFF
  const EMPTY_SLOT: byte := 0xFF

  const P1: int := 0x1A
  const PJ: int := 0x20
  const PT: int := 0x26

  /** Twelve slots of five minutes. */
  const SLOTS: int := 12

  /** A call of `rain_caculation`: tips counted, unit, and slot of the current minute. */
  datatype Tip = Tip(count: int, unit: nat, slot: nat) {
    ghost predicate Valid() {
      slot < SLOTS
    }

    /** The count enters twice, in 32-bit arithmetic each time. */
    function Amount(): int {
      Int32(count * Int32(count * unit))
    }
  }

  /** A signed overflow is undefined in C++; here it wraps around. */
  function Int32(x: int): int {
    (x + 0x8000_0000) % 0x1_0000_0000 - 0x8000_0000
  }

  /** The same modulo 2^32, in the range of an int. */
  lemma Int32Is(x: int)
    ensures -0x8000_0000 <= Int32(x) < 0x8000_0000 && (Int32(x) - x) % 0x1_0000_0000 == 0
    ensures -0x8000_0000 <= x < 0x8000_0000 <==> Int32(x) == x
  {
  }

  /** Overflows or not, the amount is the squared count times the unit modulo 2^32. */
  lemma AmountModulo(tip: Tip)
    ensures -0x8000_0000 <= tip.Amount() < 0x8000_0000
    ensures (tip.Amount() - tip.count * tip.count * tip.unit) % 0x1_0000_0000 == 0
  {
    var p := tip.count * tip.unit;
    var i := Int32(p);
    Int32Is(p);
    Int32Is(tip.count * i);
    var q, r := (i - p) / 0x1_0000_0000, (tip.Amount() - tip.count * i) / 0x1_0000_0000;
    hide Int32, Tip.Amount;
    Regrouped(tip.count, tip.unit, p, q, i);
    assert tip.Amount() - tip.count * tip.count * tip.unit == 0x1_0000_0000 * (r + tip.count * q);
  }

  lemma Regrouped(c: int, u: int, p: int, q: int, i: int)
    requires p == c * u && i == p + 0x1_0000_0000 * q
    ensures c * i == c * c * u + 0x1_0000_0000 * (c * q)
  {
    assert c * (0x1_0000_0000 * q) == 0x1_0000_0000 * (c * q);
    assert c * p == c * c * u;
  }

  function Increased(val: int, v: int): int {
    if val == INVALID then v else val + v
  }

  function SlotAfter(slot: byte, v: int): byte {
    if slot == EMPTY_SLOT then v % 256 else (slot + v) % 256
  }

  datatype Gauge = Gauge(p1: int, pj: int, pt: int, acc: int, slots: seq<byte>) {
    ghost predicate Valid() {
      |slots| == SLOTS
    }

    function Restarted(): Gauge {
      this.(p1 := 0, slots := seq(SLOTS, _ => EMPTY_SLOT))
    }

    function Tipped(tip: Tip): Gauge
      requires Valid() && tip.Valid()
    {
      var v := tip.Amount();
      if tip.count <= 0 then this
      else this.(
        p1 := Increased(p1, v), pj := Increased(pj, v), pt := Increased(pt, v),
        acc := if acc == INVALID then Increased(pt, v) else acc + v,
        slots := slots[tip.slot := SlotAfter(slots[tip.slot], v)])
    }
  }

  class Meter {
    /** The values of `devdata` by their ids. */
    var vals: map<int, int>
    const drp: array<byte>
    var acc: int
    var increased: bool

    ghost predicate Valid()
      reads this
    {
      drp.Length == SLOTS && P1 in vals && PJ in vals && PT in vals
    }

    function State(): Gauge
      requires Valid()
      reads this, drp
    {
      Gauge(vals[P1], vals[PJ], vals[PT], acc, drp[..])
    }

    constructor ()
      ensures Valid() && fresh(drp)
      ensures State() == Gauge(INVALID, INVALID, INVALID, INVALID, seq(SLOTS, _ => EMPTY_SLOT))
    {
      vals := map[P1 := INVALID, PJ := INVALID, PT := INVALID];
      drp := new byte[SLOTS](_ => EMPTY_SLOT);
      acc, increased := INVALID, false;
    }

    method Init5Min()
      requires Valid()
      modifies this`vals, drp
      ensures Valid() && State() == old(State()).Restarted()
    {
      forall i | 0 <= i < SLOTS {
        drp[i] := EMPTY_SLOT;
      }
      vals := vals[P1 := 0];
    }

    method Increase(id: int, v: int)
      requires id in vals
      modifies this`vals
      ensures vals == old(vals)[id := Increased(old(vals)[id], v)]
    {
      if vals[id] == INVALID {
        vals := vals[id := v];
      } else {
        vals := vals[id := vals[id] + v];
      }
    }

    method IncreaseDrp(v: int, off: nat)
      requires off < drp.Length
      modifies drp
      ensures drp[..] == old(drp[..])[off := SlotAfter(old(drp[off]), v)]
    {
      if drp[off] == EMPTY_SLOT {
        drp[off] := v % 256;
      } else {
        drp[off] := (drp[off] + v) % 256;
      }
    }

    method RainCalculation(tip: Tip)
      requires Valid() && tip.Valid()
      modifies this, drp
      ensures Valid() && State() == old(State()).Tipped(tip)
      ensures increased == (old(increased) || tip.count > 0)
    {
      var inc := tip.count;
      inc := Int32(inc * Int32(tip.count * tip.unit));
      hide Int32;
      if tip.count > 0 {
        increased := true;
        Increase(P1, inc);
        Increase(PJ, inc);
        IncreaseDrp(inc, tip.slot);
        Increase(PT, inc);
        if acc == INVALID {
          acc := vals[PT];
        } else {
          acc := acc + inc;
        }
      }
    }
  }

  // ---------- the hour: P1 and the slots ----------

  function Shown(slot: byte): int {
    if slot == EMPTY_SLOT then 0 else slot
  }

  /** The rain shown by the first `n` slots. */
  function Sum(slots: seq<byte>, n: nat): int
    requires n <= |slots|
  {
    if n == 0 then 0 else Sum(slots, n - 1) + Shown(slots[n - 1])
  }

  function Run(g: Gauge, tips: seq<Tip>): (r: Gauge)
    requires g.Valid() && forall t | t in tips :: t.Valid()
    ensures r.Valid()
  {
    if tips == [] then g else Run(g, tips[..|tips| - 1]).Tipped(tips[|tips| - 1])
  }

  /** The amount of a tip has not overflowed into a negative number. */
  predicate Counted(tip: Tip) {
    tip.count > 0 ==> tip.Amount() >= 0
  }

  ghost predicate AllCounted(tips: seq<Tip>) {
    forall t | t in tips :: t.Valid() && Counted(t)
  }

  /** Up to 2^31-1 nothing overflows; a single tip never does. */
  lemma AmountExact(tip: Tip)
    requires 0 <= tip.count && tip.count * tip.count * tip.unit < 0x8000_0000
    ensures tip.Amount() == tip.count * tip.count * tip.unit && Counted(tip)
  {
    Squared(tip.count, tip.unit);
    var p := tip.count * tip.unit;
    Int32Is(p);
    Int32Is(tip.count * p);
    hide Int32;
  }

  lemma Squared(c: nat, u: nat)
    ensures c * (c * u) == c * c * u && 0 <= c * u
    ensures c * u <= c * c * u
  {
    if c > 0 {
      assert c * (c * u) == c * u + (c - 1) * (c * u);
    }
  }

  function Fallen(tip: Tip): int {
    if tip.count <= 0 then 0 else tip.Amount()
  }

  /** The rain that fell in one slot. */
  function FallenIn(tips: seq<Tip>, slot: nat): int {
    if tips == [] then 0
    else
      var t := tips[|tips| - 1];
      FallenIn(tips[..|tips| - 1], slot) + if t.slot == slot then Fallen(t) else 0
  }

  /** The rain that fell in the first `n` slots. */
  function Total(tips: seq<Tip>, n: nat): int {
    if n == 0 then 0 else Total(tips, n - 1) + FallenIn(tips, n - 1)
  }

  lemma SlotStep(slot: byte, v: nat)
    ensures 0 <= Shown(slot) <= 254
    ensures Shown(SlotAfter(slot, v)) <= Shown(slot) + v
    ensures Shown(SlotAfter(slot, v)) == Shown(slot) + v <==> Shown(slot) + v <= 254
  {
    var s: int := Shown(slot);
    assert SlotAfter(slot, v) == (s + v) % 256;
  }

  lemma AmountIsFallen(tip: Tip)
    ensures tip.count > 0 ==> tip.Amount() == Fallen(tip)
    ensures tip.count <= 0 ==> Fallen(tip) == 0
    ensures Counted(tip) <==> Fallen(tip) >= 0
  {
  }

  /** A slot shows no more than fell in it, and exactly that as long as it is at most
      25.4 mm: what is lost to an overflow is lost for good. */
  lemma {:induction false} SlotShows(g: Gauge, tips: seq<Tip>, k: nat)
    requires g.Valid() && AllCounted(tips) && k < SLOTS
    ensures var shown := Shown(Run(g.Restarted(), tips).slots[k]);
            && shown <= FallenIn(tips, k)
            && (shown == FallenIn(tips, k) <==> FallenIn(tips, k) <= 254)
    decreases |tips|
  {
    hide Fallen, SlotAfter, Shown, Increased;
    SlotStep(EMPTY_SLOT, 0);
    EmptyShows();
    if tips != [] {
      var t := tips[|tips| - 1];
      assert t in tips;
      var before := Run(g.Restarted(), tips[..|tips| - 1]);
      SlotShows(g, tips[..|tips| - 1], k);
      AmountIsFallen(t);
      SlotStep(before.slots[k], Fallen(t));
    }
  }

  /** Some rain has been put into the slot, be it none. */
  predicate Touched(tips: seq<Tip>, slot: nat) {
    exists t | t in tips :: t.slot == slot && t.count > 0
  }

  /** Until then a slot is marked as empty; afterwards it holds what fell in it. */
  lemma {:induction false} SlotHolds(g: Gauge, tips: seq<Tip>, k: nat)
    requires g.Valid() && AllCounted(tips) && k < SLOTS && FallenIn(tips, k) <= 254
    ensures Run(g.Restarted(), tips).slots[k] == if Touched(tips, k) then FallenIn(tips, k) else 0xFF
    decreases |tips|
  {
    if tips != [] {
      var n := |tips| - 1;
      var t, before := tips[n], Run(g.Restarted(), tips[..n]);
      assert t in tips && tips == tips[..n] + [t];
      TouchedMore(tips, k);
      AmountIsFallen(t);
      hide Tip.Amount, Shown, Fallen, Touched, SlotAfter;
      FallenNotNegative(tips[..n], k);
      SlotHolds(g, tips[..n], k);
      SlotAfterTip(before, t, k);
      hide Gauge.Tipped;
      if t.slot == k && t.count > 0 {
        if !Touched(tips[..n], k) {
          NothingFallen(tips[..n], k);
        }
        SlotRaised(before.slots[k], FallenIn(tips[..n], k), Fallen(t));
      }
    }
  }

  lemma TouchedMore(tips: seq<Tip>, k: nat)
    requires tips != []
    ensures var n := |tips| - 1;
            Touched(tips, k) <==> Touched(tips[..n], k) || (tips[n].slot == k && tips[n].count > 0)
  {
    var n := |tips| - 1;
    assert tips == tips[..n] + [tips[n]];
  }

  lemma {:induction false} FallenNotNegative(tips: seq<Tip>, k: nat)
    requires AllCounted(tips)
    ensures FallenIn(tips, k) >= 0
    decreases |tips|
  {
    if tips != [] {
      assert tips[|tips| - 1] in tips;
      AmountIsFallen(tips[|tips| - 1]);
      FallenNotNegative(tips[..|tips| - 1], k);
    }
  }

  lemma SlotAfterTip(g: Gauge, t: Tip, k: nat)
    requires g.Valid() && t.Valid() && k < SLOTS
    ensures g.Tipped(t).slots[k] == if t.slot == k && t.count > 0 then SlotAfter(g.slots[k], t.Amount()) else g.slots[k]
  {
  }

  lemma SlotRaised(slot: byte, sum: nat, v: nat)
    requires sum + v <= 254 && (slot == sum || (slot == 0xFF && sum == 0))
    ensures SlotAfter(slot, v) == sum + v
  {
  }

  lemma {:induction false} NothingFallen(tips: seq<Tip>, k: nat)
    requires !Touched(tips, k)
    ensures FallenIn(tips, k) == 0
    decreases |tips|
  {
    if tips != [] {
      assert tips[|tips| - 1] in tips;
      NothingFallen(tips[..|tips| - 1], k);
    }
  }

  lemma EmptyShows()
    ensures Shown(EMPTY_SLOT) == 0
  {
  }

  lemma {:induction false} TotalGrows(tips: seq<Tip>, n: nat)
    requires tips != []
    ensures var t := tips[|tips| - 1];
            Total(tips, n) == Total(tips[..|tips| - 1], n) + if t.slot < n then Fallen(t) else 0
    decreases n
  {
    hide Fallen;
    if n > 0 {
      TotalGrows(tips, n - 1);
    }
  }

  lemma {:induction false} TotalOfNothing(n: nat)
    ensures Total([], n) == 0
  {
    if n > 0 {
      TotalOfNothing(n - 1);
    }
  }

  /** P1 is all the rain since the hour began. */
  lemma {:induction false} HourTotal(g: Gauge, tips: seq<Tip>)
    requires g.Valid() && AllCounted(tips) && Total(tips, SLOTS) < INVALID
    ensures Run(g.Restarted(), tips).p1 == Total(tips, SLOTS)
    decreases |tips|
  {
    hide Fallen, SlotAfter, Total;
    if tips == [] {
      TotalOfNothing(SLOTS);
    } else {
      var t := tips[|tips| - 1];
      assert t in tips;
      TotalGrows(tips, SLOTS);
      AmountIsFallen(t);
      HourTotal(g, tips[..|tips| - 1]);
    }
  }

  lemma {:induction false} SumAgainstTotal(g: Gauge, tips: seq<Tip>, n: nat)
    requires g.Valid() && AllCounted(tips) && n <= SLOTS
    ensures var sum := Sum(Run(g.Restarted(), tips).slots, n);
            && sum <= Total(tips, n)
            && (sum == Total(tips, n) <==> forall k :: 0 <= k < n ==> FallenIn(tips, k) <= 254)
    decreases n
  {
    hide Run, FallenIn, Shown;
    if n > 0 {
      SumAgainstTotal(g, tips, n - 1);
      SlotShows(g, tips, n - 1);
    }
  }

  /** From the start of an hour, over any tips whose amounts have not overflowed, P1 equals
      the sum of the slots in use exactly when no slot has received more than 25.4 mm. */
  lemma HourBalances(g: Gauge, tips: seq<Tip>)
    requires g.Valid() && AllCounted(tips) && Total(tips, SLOTS) < INVALID
    ensures var r := Run(g.Restarted(), tips);
            r.p1 == Sum(r.slots, SLOTS) <==> forall k :: 0 <= k < SLOTS ==> FallenIn(tips, k) <= 254
  {
    hide Run, FallenIn, Sum, Total;
    HourTotal(g, tips);
    SumAgainstTotal(g, tips, SLOTS);
  }

  lemma {:induction false} SumChanged(slots: seq<byte>, k: nat, b: byte, n: nat)
    requires k < |slots| && n <= |slots|
    ensures Sum(slots[k := b], n) == Sum(slots, n) + if k < n then Shown(b) - Shown(slots[k]) else 0
    decreases n
  {
    if n > 0 {
      SumChanged(slots, k, b, n - 1);
    }
  }

  lemma SlotTakes(slot: byte, v: int)
    ensures Shown(SlotAfter(slot, v)) == Shown(slot) + v <==> 0 <= Shown(slot) + v <= 254
  {
    var s: int := Shown(slot);
    assert SlotAfter(slot, v) == (s + v) % 256;
  }

  /** A single call keeps P1 equal to the sum of the slots exactly when the slot can take
      the amount, an overflowed one included. */
  lemma TipBalances(g: Gauge, tip: Tip)
    requires g.Valid() && tip.Valid() && tip.count > 0 && g.p1 != INVALID && g.p1 == Sum(g.slots, SLOTS)
    ensures var r := g.Tipped(tip);
            r.p1 == Sum(r.slots, SLOTS) <==> 0 <= Shown(g.slots[tip.slot]) + tip.Amount() <= 254
  {
    hide Sum, SlotAfter, Shown, Int32;
    var b := SlotAfter(g.slots[tip.slot], tip.Amount());
    SumChanged(g.slots, tip.slot, b, SLOTS);
    SlotTakes(g.slots[tip.slot], tip.Amount());
  }

  /** An amount that overflows. */
  lemma AmountOverflows()
    ensures Tip(182, 65535, 0).Amount() == -2124185956 && !Counted(Tip(182, 65535, 0))
  {
    assert 182 * 65535 == 11927370 && 182 * 11927370 == 2170781340;
  }

  // ---------- PT and the stored total ----------

  /** After a tip PT and the stored total agree exactly when they did before, or the
      stored one was empty, or it was 0 and PT was empty. */
  lemma TotalsAfterTip(g: Gauge, tip: Tip)
    requires g.Valid() && tip.Valid() && tip.count > 0
    ensures var r := g.Tipped(tip);
            r.pt == r.acc <==> g.pt == g.acc || g.acc == INVALID || (g.pt == INVALID && g.acc == 0)
  {
    hide Tip.Amount;
  }

  /** Once they agree, PT and the stored total agree for ever; starting both empty, or
      with nothing stored, they agree from the first tip on. */
  lemma {:induction false} TotalsAgree(g: Gauge, tips: seq<Tip>)
    requires g.Valid() && forall t | t in tips :: t.Valid()
    requires g.pt == g.acc || (g.acc == INVALID && tips != [] && tips[0].count > 0)
    ensures Run(g, tips).pt == Run(g, tips).acc
    decreases |tips|
  {
    if tips != [] {
      var n := |tips| - 1;
      assert tips[n] in tips;
      var before := Run(g, tips[..n]);
      if n > 0 || g.pt == g.acc {
        TotalsAgree(g, tips[..n]);
      }
      if tips[n].count > 0 {
        TotalsAfterTip(before, tips[n]);
      }
    }
  }

  // ---------- the running totals ----------

  /** The value of an item that may be empty. */
  function Held(val: int): int {
    if val == 0x7FFF_FFFF_FFFF_FFFF then 0 else val
  }

  /** All rain of some calls. */
  function AllFallen(tips: seq<Tip>): int {
    if tips == [] then 0 else AllFallen(tips[..|tips| - 1]) + Fallen(tips[|tips| - 1])
  }

  lemma IncreasedHolds(val: int, v: int)
    requires Held(val) + v != INVALID
    ensures Held(Increased(val, v)) == Held(val) + v
  {
  }

  /** The current rain, the total and the rain of the hour all grow by what falls. */
  lemma {:induction false} TotalsGrow(g: Gauge, tips: seq<Tip>)
    requires g.Valid() && AllCounted(tips)
    requires Held(g.p1) + AllFallen(tips) < INVALID && Held(g.pj) + AllFallen(tips) < INVALID
    requires Held(g.pt) + AllFallen(tips) < INVALID
    ensures var r := Run(g, tips);
            && Held(r.p1) == Held(g.p1) + AllFallen(tips)
            && Held(r.pj) == Held(g.pj) + AllFallen(tips)
            && Held(r.pt) == Held(g.pt) + AllFallen(tips)
    decreases |tips|
  {
    if tips != [] {
      var n := |tips| - 1;
      var t := tips[n];
      assert t in tips;
      AmountIsFallen(t);
      hide Tip.Amount, Fallen, Increased, Held, SlotAfter;
      TotalsGrow(g, tips[..n]);
      var before := Run(g, tips[..n]);
      if t.count > 0 {
        IncreasedHolds(before.p1, t.Amount());
        IncreasedHolds(before.pj, t.Amount());
        IncreasedHolds(before.pt, t.Amount());
      }
    }
  }
}

/** The two check sums of lib.cpp: `crc8` (polynomial 0x07) and `crc_calculate`, the
    CRC of MODBUS over Serial Line V1.02, section 6.2.2. */
module Crc {

  // ---------- crc8 ----------

  function Shift8(c: bv8): bv8 {
    if c & 0x80 != 0 then (c << 1) ^ 0x07 else c << 1
  }

  function Shifts8(c: bv8, n: nat): bv8
    decreases n
  {
    if n == 0 then c else Shifts8(Shift8(c), n - 1)
  }

  /** One byte taken into the check sum. */
  function Step8(c: bv8, b: bv8): bv8 {
    Shifts8(c ^ b, 8)
  }

  function Crc8From(c: bv8, data: seq<bv8>): bv8
    decreases |data|
  {
    if data == [] then c else Crc8From(Step8(c, data[0]), data[1..])
  }

  /** The loop over the bits of one byte. */
  method Bits8(c: bv8, b: bv8) returns (crc: bv8)
    ensures crc == Step8(c, b)
  {
    crc := c ^ b;
    for bit := 0 to 8
      invariant Shifts8(crc, 8 - bit) == Step8(c, b)
    {
      if crc & 0x80 != 0 {
        crc := (crc << 1) ^ 0x07;
      } else {
        crc := crc << 1;
      }
    }
  }

  method Crc8(data: array<bv8>, size: nat) returns (crc: bv8)
    requires size <= data.Length
    ensures crc == Crc8From(0, data[..size])
  {
    hide Step8;
    crc := 0;
    for k := 0 to size
      invariant Crc8From(crc, data[k..size]) == Crc8From(0, data[..size])
    {
      assert data[k..size][1..] == data[k + 1..size];
      crc := Bits8(crc, data[k]);
    }
  }

  lemma {:induction false} Shifts8Injective(a: bv8, b: bv8, n: nat)
    requires Shifts8(a, n) == Shifts8(b, n)
    ensures a == b
    decreases n
  {
    if n > 0 {
      Shifts8Injective(Shift8(a), Shift8(b), n - 1);
    }
  }

  lemma {:induction false} Shifts8Zero(n: nat)
    ensures Shifts8(0, n) == 0
  {
    if n > 0 {
      Shifts8Zero(n - 1);
    }
  }

  lemma XorFacts8(a: bv8, b: bv8, d: bv8)
    ensures a ^ d == b ^ d ==> a == b
    ensures d ^ a == d ^ b ==> a == b
    ensures a ^ b == 0 <==> a == b
  {
  }

  /** The step loses nothing: neither of the check sum nor of the byte. */
  lemma Step8Injective(a: bv8, b: bv8, d: bv8)
    ensures Step8(a, d) == Step8(b, d) ==> a == b
    ensures Step8(d, a) == Step8(d, b) ==> a == b
    ensures Step8(a, b) == 0 <==> a == b
  {
    hide Shifts8;
    XorFacts8(a, b, d);
    Shifts8Zero(8);
    if Step8(a, d) == Step8(b, d) {
      Shifts8Injective(a ^ d, b ^ d, 8);
    }
    if Step8(d, a) == Step8(d, b) {
      Shifts8Injective(d ^ a, d ^ b, 8);
    }
    if Step8(a, b) == 0 {
      Shifts8Injective(a ^ b, 0, 8);
    }
  }

  lemma {:induction false} Crc8Injective(a: bv8, b: bv8, data: seq<bv8>)
    requires Crc8From(a, data) == Crc8From(b, data)
    ensures a == b
    decreases |data|
  {
    hide Step8;
    if data != [] {
      Crc8Injective(Step8(a, data[0]), Step8(b, data[0]), data[1..]);
      Step8Injective(a, b, data[0]);
    }
  }

  lemma {:induction false} Crc8Splits(c: bv8, m: seq<bv8>, n: seq<bv8>)
    ensures Crc8From(c, m + n) == Crc8From(Crc8From(c, m), n)
    decreases |m|
  {
    hide Step8;
    if m == [] {
      assert m + n == n;
    } else {
      assert (m + n)[1..] == m[1..] + n;
      Crc8Splits(Step8(c, m[0]), m[1..], n);
    }
  }

  lemma Crc8Cons(c: bv8, b: bv8, rest: seq<bv8>)
    ensures Crc8From(c, [b] + rest) == Crc8From(Step8(c, b), rest)
  {
    hide Step8;
    assert ([b] + rest)[1..] == rest;
  }

  /** Changing exactly one byte of a message of any length changes its crc8. */
  lemma Crc8Detects(before: seq<bv8>, a: bv8, b: bv8, after: seq<bv8>)
    requires a != b
    ensures Crc8From(0, before + ([a] + after)) != Crc8From(0, before + ([b] + after))
  {
    Crc8Splits(0, before, [a] + after);
    Crc8Splits(0, before, [b] + after);
    hide Step8, Crc8From;
    var c := Crc8From(0, before);
    Crc8Cons(c, a, after);
    Crc8Cons(c, b, after);
    if Crc8From(0, before + ([a] + after)) == Crc8From(0, before + ([b] + after)) {
      Crc8Injective(Step8(c, a), Step8(c, b), after);
      Step8Injective(a, b, c);
    }
  }

  /** A message followed by one byte checks to 0 exactly when that byte is its crc8. */
  lemma Crc8Residue(m: seq<bv8>, b: bv8)
    ensures Crc8From(0, m + [b]) == 0 <==> b == Crc8From(0, m)
  {
    Crc8Splits(0, m, [b]);
    var c := Crc8From(0, m);
    assert Crc8From(c, [b]) == Step8(c, b) by {
      assert [b] + [] == [b];
      Crc8Cons(c, b, []);
    }
    hide Step8, Crc8From;
    Step8Injective(c, b, c);
  }

  /** The polynomial x^8 + x^2 + x + 1, highest power left out. */
  lemma Polynomial8()
    ensures Step8(0, 1) == 0x07
  {
    assert Shift8(1) == 2 && Shift8(2) == 4 && Shift8(4) == 8 && Shift8(8) == 16;
    assert Shift8(16) == 32 && Shift8(32) == 64 && Shift8(64) == 128 && Shift8(128) == 7;
    hide Shift8;
    assert Shifts8(1, 8) == Shifts8(4, 6) == Shifts8(16, 4) == Shifts8(64, 2) == 7;
  }

  // ---------- crc_calculate ----------

  /** A byte brought into the low half of the check sum. */
  function Mixed(c: bv16, b: bv8): bv16 {
    c ^ b as bv16
  }

  function Shift16(c: bv16): bv16 {
    if c & 1 != 0 then (c >> 1) ^ 0xA001 else c >> 1
  }

  function Shifts16(c: bv16, n: nat): bv16
    decreases n
  {
    if n == 0 then c else Shifts16(Shift16(c), n - 1)
  }

  function Step16(c: bv16, b: bv8): bv16 {
    Shifts16(Mixed(c, b), 8)
  }

  function Crc16From(c: bv16, data: seq<bv8>): bv16
    decreases |data|
  {
    if data == [] then c else Crc16From(Step16(c, data[0]), data[1..])
  }

  /** The length is narrowed to a byte, so only `|data| % 256` bytes are looked at. */
  function Crc16(data: seq<bv8>): bv16 {
    Crc16From(0xFFFF, data[..|data| % 256])
  }

  method Bits16(c: bv16, b: bv8) returns (crc: bv16)
    ensures crc == Step16(c, b)
  {
    crc := c ^ b as bv16;
    for j := 0 to 8
      invariant Shifts16(crc, 8 - j) == Step16(c, b)
    {
      if crc & 1 != 0 {
        crc := (crc >> 1) ^ 0xA001;
      } else {
        crc := crc >> 1;
      }
    }
  }

  method CrcCalculate(data: array<bv8>, len: nat) returns (crc: bv16)
    requires len <= data.Length
    ensures crc == Crc16(data[..len])
  {
    hide Step16;
    crc := 0xFFFF;
    var checkLen := len % 256;
    assert data[..len][..checkLen] == data[..checkLen];
    for i := 0 to checkLen
      invariant Crc16From(crc, data[i..checkLen]) == Crc16From(0xFFFF, data[..checkLen])
    {
      assert data[i..checkLen][1..] == data[i + 1..checkLen];
      crc := Bits16(crc, data[i]);
    }
  }

  /** The way back: bit 15 of 0xA001 tells which branch was taken. */
  function Unshift16(c: bv16): bv16 {
    if c & 0x8000 != 0 then ((c ^ 0xA001) << 1) | 1 else c << 1
  }

  function Unshifts16(c: bv16, n: nat): bv16
    decreases n
  {
    if n == 0 then c else Unshift16(Unshifts16(c, n - 1))
  }

  lemma ShiftUndone(c: bv16)
    ensures Unshift16(Shift16(c)) == c
  {
  }

  lemma {:induction false} ShiftsUndone(c: bv16, n: nat)
    ensures Unshifts16(Shifts16(c, n), n) == c
    decreases n
  {
    hide Shift16, Unshift16;
    if n > 0 {
      ShiftsUndone(Shift16(c), n - 1);
      ShiftUndone(c);
    }
  }

  lemma {:induction false} Shifts16Zero(n: nat)
    ensures Shifts16(0, n) == 0
    decreases n
  {
    if n > 0 {
      Shifts16Zero(n - 1);
    }
  }

  /** What two values agree on. */
  predicate Agree(u: bv16, v: bv16, mask: bv16) {
    u & mask == v & mask
  }

  // A step back keeps what two values agree on, as long as bit 15 is part of it.

  lemma Back1(u: bv16, v: bv16)
    requires Agree(u, v, 0xFF00)
    ensures Agree(Unshift16(u), Unshift16(v), 0xFE01)
  {
  }

  lemma Back2(u: bv16, v: bv16)
    requires Agree(u, v, 0xFE01)
    ensures Agree(Unshift16(u), Unshift16(v), 0xFC03)
  {
  }

  lemma Back3(u: bv16, v: bv16)
    requires Agree(u, v, 0xFC03)
    ensures Agree(Unshift16(u), Unshift16(v), 0xF807)
  {
  }

  lemma Back4(u: bv16, v: bv16)
    requires Agree(u, v, 0xF807)
    ensures Agree(Unshift16(u), Unshift16(v), 0xF00F)
  {
  }

  lemma Back5(u: bv16, v: bv16)
    requires Agree(u, v, 0xF00F)
    ensures Agree(Unshift16(u), Unshift16(v), 0xE01F)
  {
  }

  lemma Back6(u: bv16, v: bv16)
    requires Agree(u, v, 0xE01F)
    ensures Agree(Unshift16(u), Unshift16(v), 0xC03F)
  {
  }

  lemma Back7(u: bv16, v: bv16)
    requires Agree(u, v, 0xC03F)
    ensures Agree(Unshift16(u), Unshift16(v), 0x807F)
  {
  }

  lemma Back8(u: bv16, v: bv16)
    requires Agree(u, v, 0x807F)
    ensures Agree(Unshift16(u), Unshift16(v), 0x00FF)
  {
  }

  /** Eight steps back: values with the same high byte end with the same low byte. */
  lemma EightBack(a: bv16, b: bv16)
    requires Agree(a, b, 0xFF00)
    ensures Agree(Unshifts16(a, 8), Unshifts16(b, 8), 0x00FF)
  {
    hide Agree, Unshift16;
    Back1(a, b);
    var a1, b1 := Unshifts16(a, 1), Unshifts16(b, 1);
    Back2(a1, b1);
    var a2, b2 := Unshifts16(a, 2), Unshifts16(b, 2);
    Back3(a2, b2);
    var a3, b3 := Unshifts16(a, 3), Unshifts16(b, 3);
    Back4(a3, b3);
    var a4, b4 := Unshifts16(a, 4), Unshifts16(b, 4);
    Back5(a4, b4);
    var a5, b5 := Unshifts16(a, 5), Unshifts16(b, 5);
    Back6(a5, b5);
    var a6, b6 := Unshifts16(a, 6), Unshifts16(b, 6);
    Back7(a6, b6);
    var a7, b7 := Unshifts16(a, 7), Unshifts16(b, 7);
    Back8(a7, b7);
  }

  lemma MixedHigh(x: bv16, b: bv8)
    ensures Agree(Mixed(x, b), x, 0xFF00)
  {
  }

  lemma MixedLow(x: bv16, a: bv8, b: bv8)
    requires Agree(Mixed(x, a), Mixed(x, b), 0x00FF)
    ensures a == b
  {
  }

  lemma MixedCancels(x: bv16, y: bv16, b: bv8)
    requires Mixed(x, b) == Mixed(y, b)
    ensures x == y
  {
  }

  lemma AgreeAlong(u: bv16, v: bv16, x: bv16, y: bv16, mask: bv16)
    requires Agree(u, x, mask) && Agree(v, y, mask) && u == v
    ensures Agree(x, y, mask)
  {
  }

  lemma StepInjective(x: bv16, a: bv8, y: bv16, b: bv8)
    requires Step16(x, a) == Step16(y, b)
    ensures Mixed(x, a) == Mixed(y, b)
  {
    hide Mixed, Shifts16, Unshifts16;
    ShiftsUndone(Mixed(x, a), 8);
    ShiftsUndone(Mixed(y, b), 8);
  }

  /** Two bytes in a row: no other two bytes do the same to the check sum. */
  lemma TwoSteps(c: bv16, a: bv8, b: bv8, e: bv8, f: bv8)
    requires Step16(Step16(c, a), b) == Step16(Step16(c, e), f)
    ensures a == e && b == f
  {
    var x, y := Step16(c, a), Step16(c, e);
    hide Mixed, Agree, Shifts16, Unshifts16;
    StepInjective(x, b, y, f);
    MixedHigh(x, b);
    MixedHigh(y, f);
    AgreeAlong(Mixed(x, b), Mixed(y, f), x, y, 0xFF00);
    EightBack(x, y);
    ShiftsUndone(Mixed(c, a), 8);
    ShiftsUndone(Mixed(c, e), 8);
    MixedLow(c, a, e);
    SameMixed(x, b, f);
  }

  lemma SameMixed(x: bv16, a: bv8, b: bv8)
    requires Mixed(x, a) == Mixed(x, b)
    ensures a == b
  {
  }

  lemma {:induction false} Crc16Injective(x: bv16, y: bv16, data: seq<bv8>)
    requires Crc16From(x, data) == Crc16From(y, data)
    ensures x == y
    decreases |data|
  {
    hide Step16, Mixed;
    if data != [] {
      Crc16Injective(Step16(x, data[0]), Step16(y, data[0]), data[1..]);
      StepInjective(x, data[0], y, data[0]);
      MixedCancels(x, y, data[0]);
    }
  }

  lemma {:induction false} Crc16Splits(c: bv16, m: seq<bv8>, n: seq<bv8>)
    ensures Crc16From(c, m + n) == Crc16From(Crc16From(c, m), n)
    decreases |m|
  {
    hide Step16;
    if m == [] {
      assert m + n == n;
    } else {
      assert (m + n)[1..] == m[1..] + n;
      Crc16Splits(Step16(c, m[0]), m[1..], n);
    }
  }

  lemma Crc16Pair(c: bv16, a: bv8, b: bv8, rest: seq<bv8>)
    ensures Crc16From(c, [a, b] + rest) == Crc16From(Step16(Step16(c, a), b), rest)
  {
    hide Step16;
    var s := [a, b] + rest;
    assert s[1..] == [b] + rest && s[1..][1..] == rest;
  }

  /** Two neighbouring bytes that are both looked at. */
  lemma PairShows(before: seq<bv8>, a: bv8, b: bv8, e: bv8, f: bv8, after: seq<bv8>)
    ensures Crc16From(0xFFFF, before + ([a, b] + after)) == Crc16From(0xFFFF, before + ([e, f] + after))
            <==> (a, b) == (e, f)
  {
    Crc16Splits(0xFFFF, before, [a, b] + after);
    Crc16Splits(0xFFFF, before, [e, f] + after);
    hide Step16, Crc16From;
    var c := Crc16From(0xFFFF, before);
    Crc16Pair(c, a, b, after);
    Crc16Pair(c, e, f, after);
    if Crc16From(0xFFFF, before + ([a, b] + after)) == Crc16From(0xFFFF, before + ([e, f] + after)) {
      Crc16Injective(Step16(Step16(c, a), b), Step16(Step16(c, e), f), after);
      TwoSteps(c, a, b, e, f);
    }
  }

  /** A byte that is the last one looked at. */
  lemma LastShows(before: seq<bv8>, a: bv8, e: bv8)
    ensures Crc16From(0xFFFF, before + [a]) == Crc16From(0xFFFF, before + [e]) <==> a == e
  {
    Crc16Splits(0xFFFF, before, [a]);
    Crc16Splits(0xFFFF, before, [e]);
    var c := Crc16From(0xFFFF, before);
    assert [a][1..] == [] && [e][1..] == [];
    assert Crc16From(c, [a]) == Step16(c, a) && Crc16From(c, [e]) == Step16(c, e);
    hide Step16, Crc16From, Mixed;
    if Step16(c, a) == Step16(c, e) {
      StepInjective(c, a, c, e);
      SameMixed(c, a, e);
    }
  }

  /** Which changes of two neighbouring bytes show, in messages of any length: those of
      bytes before the length modulo 256. Up to 255 bytes these are all. */
  lemma Crc16DetectsIff(before: seq<bv8>, a: bv8, b: bv8, e: bv8, f: bv8, after: seq<bv8>)
    ensures var k := (|before| + 2 + |after|) % 256;
            Crc16(before + ([a, b] + after)) != Crc16(before + ([e, f] + after))
            <==> (|before| < k && a != e) || (|before| + 1 < k && b != f)
  {
    hide Crc16From;
    var m, n := before + ([a, b] + after), before + ([e, f] + after);
    var k, p := |m| % 256, |before|;
    if k <= p {
      assert m[..k] == before[..k] == n[..k];
    } else if k == p + 1 {
      assert m[..k] == before + [a] && n[..k] == before + [e];
      LastShows(before, a, e);
    } else {
      var rest := after[..k - p - 2];
      assert m[..k] == before + ([a, b] + rest) && n[..k] == before + ([e, f] + rest);
      PairShows(before, a, b, e, f, rest);
    }
  }

  function Zeros(n: nat): (s: seq<bv8>)
    ensures |s| == n
  {
    seq(n, _ => 0)
  }

  /** A change that is not seen: no byte of a message of 256 is looked at. */
  lemma UndetectedChange()
    ensures Crc16([1, 2] + Zeros(254)) == Crc16([3, 4] + Zeros(254))
  {
    hide Zeros, Crc16;
    Crc16DetectsIff([], 1, 2, 3, 4, Zeros(254));
    var m, n := [1, 2] + Zeros(254), [3, 4] + Zeros(254);
    assert [] + m == m && [] + n == n;
  }

  function Low(c: bv16): bv8 {
    (c & 0xFF) as bv8
  }

  function High(c: bv16): bv8 {
    (c >> 8) as bv8
  }

  lemma EvenHalves(c: bv16)
    requires c & 1 == 0
    ensures Shift16(c) == c >> 1
  {
  }

  lemma EvenStays(c: bv16)
    requires c & 0xFF == 0
    ensures c & 1 == 0 && (c >> 1) & 1 == 0 && (c >> 2) & 1 == 0 && (c >> 3) & 1 == 0
    ensures (c >> 4) & 1 == 0 && (c >> 5) & 1 == 0 && (c >> 6) & 1 == 0 && (c >> 7) & 1 == 0
  {
  }

  lemma HalfMore(c: bv16)
    ensures (c >> 1) >> 1 == c >> 2 && (c >> 2) >> 1 == c >> 3 && (c >> 3) >> 1 == c >> 4 && (c >> 4) >> 1 == c >> 5
    ensures (c >> 5) >> 1 == c >> 6 && (c >> 6) >> 1 == c >> 7 && (c >> 7) >> 1 == c >> 8
  {
  }

  /** With a zero low byte eight shifts just move the high byte down. */
  lemma HighByteMoves(c: bv16)
    requires c & 0xFF == 0
    ensures Shifts16(c, 8) == c >> 8
  {
    EvenStays(c);
    HalfMore(c);
    EvenHalves(c);
    EvenHalves(c >> 1);
    EvenHalves(c >> 2);
    EvenHalves(c >> 3);
    EvenHalves(c >> 4);
    EvenHalves(c >> 5);
    EvenHalves(c >> 6);
    EvenHalves(c >> 7);
    hide Shift16;
    assert Shifts16(c, 8) == Shifts16(c >> 2, 6) == Shifts16(c >> 4, 4) == Shifts16(c >> 6, 2);
  }

  lemma Halves(c: bv16)
    ensures Mixed(c, Low(c)) & 0xFF == 0
    ensures Mixed(Mixed(c, Low(c)) >> 8, High(c)) == 0
  {
  }

  lemma OwnSteps(c: bv16)
    ensures Step16(Step16(c, Low(c)), High(c)) == 0
  {
    Halves(c);
    hide Shifts16, Low, High, Mixed;
    HighByteMoves(Mixed(c, Low(c)));
    Shifts16Zero(8);
  }

  lemma ResidueFrom(m: seq<bv8>, a: bv8, b: bv8)
    ensures var c := Crc16From(0xFFFF, m);
            Crc16From(0xFFFF, m + [a, b]) == 0 <==> a == Low(c) && b == High(c)
  {
    Crc16Splits(0xFFFF, m, [a, b]);
    var c := Crc16From(0xFFFF, m);
    Crc16Pair(c, a, b, []);
    assert [a, b] + [] == [a, b];
    hide Step16, Crc16From, Low, High;
    OwnSteps(c);
    if Step16(Step16(c, a), b) == 0 {
      TwoSteps(c, a, b, Low(c), High(c));
    }
  }

  /** A message with two more bytes, 255 in all at most, checks to 0 exactly when they are
      the low and then the high byte of its check sum. Of a longer one they are not
      looked at: its check sum is that of the bytes before the total modulo 256. */
  lemma Crc16Residue(m: seq<bv8>, a: bv8, b: bv8)
    ensures |m| + 2 <= 255 ==> (Crc16(m + [a, b]) == 0 <==> a == Low(Crc16(m)) && b == High(Crc16(m)))
    ensures |m| + 2 > 255 ==> Crc16(m + [a, b]) == Crc16(m[..(|m| + 2) % 256])
  {
    hide Crc16From, Low, High;
    var n := m + [a, b];
    var k := |n| % 256;
    if |n| <= 255 {
      assert n[..k] == n && m[..|m| % 256] == m;
      ResidueFrom(m, a, b);
    } else {
      assert k <= |n| - 256;
      assert n[..k] == m[..k] && m[..k][..k] == m[..k];
    }
  }

  /** Of no bytes. */
  lemma Crc16OfNothing()
    ensures Crc16([]) == 0xFFFF
  {
  }

  /** The polynomial x^16 + x^15 + x^2 + 1, lowest power on the left. */
  lemma Polynomial16()
    ensures Step16(0, 0x80) == 0xA001
  {
    assert Shift16(0x80) == 0x40 && Shift16(0x40) == 0x20 && Shift16(0x20) == 0x10 && Shift16(0x10) == 8;
    assert Shift16(8) == 4 && Shift16(4) == 2 && Shift16(2) == 1 && Shift16(1) == 0xA001;
    assert Mixed(0, 0x80) == 0x80;
    hide Shift16, Mixed;
    assert Shifts16(0x80, 8) == Shifts16(0x20, 6) == Shifts16(8, 4) == Shifts16(2, 2) == 0xA001;
  }
}

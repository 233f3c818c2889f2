/** Packed decimals and hex text (lib.cpp). */
module Codecs {
  import opened Encoding

  const U64: int := 0x1_0000_0000_0000_0000

  // ---------- packed decimals ----------

  /** The two decimal digits in the nibbles of a byte; nibbles above 9 are taken as they
      are. */
  function Pair(b: byte): int {
    (b as int) / 16 * 10 + (b as int) % 16
  }

  function PairByte(v: int): byte
    requires 0 <= v < 100
  {
    v % 10 + 16 * (v / 10)
  }

  lemma PairBack(v: int)
    requires 0 <= v < 100
    ensures Pair(PairByte(v)) == v
  {
  }

  /** `bigbcd2hex` on the bytes so far, most significant first, in 64 bits. */
  function BigBcd(d: seq<byte>): (r: int)
    ensures 0 <= r < U64
  {
    if d == [] then 0 else BcdStep(BigBcd(d[..|d| - 1]), d[|d| - 1])
  }

  function BcdStep(r: int, b: byte): int {
    (r * 100 % U64 + Pair(b)) % U64
  }

  lemma StepFits(r: nat, b: byte)
    requires r * 100 + Pair(b) < U64
    ensures BcdStep(r, b) == r * 100 + Pair(b)
  {
  }

  method BigBcd2Hex(d: seq<byte>, bytes: nat) returns (r: int)
    requires bytes <= |d|
    ensures r == BigBcd(d[..bytes])
  {
    r := 0;
    var i := 0;
    while i < bytes
      invariant 0 <= i <= bytes
      invariant r == BigBcd(d[..i])
    {
      assert d[..i + 1][..i] == d[..i];
      ghost var before := r;
      r := r * 100 % U64;
      r := (r + Pair(d[i])) % U64;
      assert r == BcdStep(before, d[i]);
      hide BcdStep;
      i := i + 1;
    }
  }

  /** The lowest `n` pairs of decimal digits of `v`. */
  function LowPairs(v: nat, n: nat): (r: nat)
    ensures r <= v
    decreases n
  {
    if n == 0 then 0 else v % 100 + 100 * LowPairs(v / 100, n - 1)
  }

  function Pow100(n: nat): (r: nat)
    ensures r > 0
  {
    if n == 0 then 1 else 100 * Pow100(n - 1)
  }

  /** `v` with its lowest `n` pairs of digits cut off. */
  function HighPairs(v: nat, n: nat): nat
    decreases n
  {
    if n == 0 then v else HighPairs(v / 100, n - 1)
  }

  lemma Regroup(m: nat, h: nat)
    ensures 100 * (m * h) == (100 * m) * h
  {
  }

  lemma {:induction false} PairsSplit(v: nat, n: nat)
    ensures v == LowPairs(v, n) + Pow100(n) * HighPairs(v, n) && LowPairs(v, n) < Pow100(n)
    decreases n
  {
    if n > 0 {
      PairsSplit(v / 100, n - 1);
      Regroup(Pow100(n - 1), HighPairs(v / 100, n - 1));
    }
  }

  /** Modulo a power of 100; all of it when it has no more digits. */
  lemma LowPairsIsModulo(v: nat, n: nat)
    ensures LowPairs(v, n) == v % Pow100(n)
    ensures v < Pow100(n) <==> LowPairs(v, n) == v
  {
    PairsSplit(v, n);
    hide LowPairs, Pow100, HighPairs;
    Remainder(v, Pow100(n), HighPairs(v, n), LowPairs(v, n));
  }

  lemma Distributes(m: int, a: int, b: int)
    ensures m * (a + b) == m * a + m * b
  {
  }

  lemma Product(a: nat, b: nat)
    ensures 0 <= a * b
  {
  }

  lemma Multiples(m: nat, a: int, b: int)
    requires m > 0 && a < b
    ensures m * a + m <= m * b
  {
    Distributes(m, a, b - a);
    Distributes(m, 1, b - a - 1);
    Product(m, b - a - 1);
  }

  lemma Division(v: nat, m: nat)
    requires m > 0
    ensures v == m * (v / m) + v % m && v % m < m
  {
  }

  lemma Remainder(v: nat, m: nat, q: nat, r: nat)
    requires v == r + m * q && r < m
    ensures v % m == r
    ensures v < m ==> r == v
  {
    var a, s := v / m, v % m;
    Division(v, m);
    if a < q {
      Multiples(m, a, q);
    } else if q < a {
      Multiples(m, q, a);
    }
    if q > 0 {
      Multiples(m, 0, q);
    }
  }

  /** The bytes `_to_report` writes for a decimal: `n` pairs, most significant first. */
  function BigPairs(v: nat, n: nat): (d: seq<byte>)
    ensures |d| == n
    decreases n
  {
    if n == 0 then [] else BigPairs(v / 100, n - 1) + [PairByte(v % 100)]
  }

  predicate Decimal(b: byte) {
    (b as int) / 16 <= 9 && (b as int) % 16 <= 9
  }

  lemma {:induction false} BigPairsDecimal(v: nat, n: nat)
    ensures forall i :: 0 <= i < n ==> Decimal(BigPairs(v, n)[i])
    decreases n
  {
    if n > 0 {
      BigPairsDecimal(v / 100, n - 1);
    }
  }

  lemma BigBcdSnoc(d: seq<byte>, b: byte)
    ensures BigBcd(d + [b]) == BcdStep(BigBcd(d), b)
  {
    assert (d + [b])[..|d|] == d;
  }

  /** What is written reads back modulo the digits there is room for; no nibble is
      above 9. */
  lemma {:induction false} BigPairsRead(v: nat, n: nat)
    requires v < U64
    ensures BigBcd(BigPairs(v, n)) == LowPairs(v, n)
    ensures forall i :: 0 <= i < n ==> Decimal(BigPairs(v, n)[i])
    decreases n
  {
    BigPairsDecimal(v, n);
    hide Decimal, Pair, PairByte, BigBcd, BcdStep;
    if n > 0 {
      BigPairsRead(v / 100, n - 1);
      PairBack(v % 100);
      BigBcdSnoc(BigPairs(v / 100, n - 1), PairByte(v % 100));
      StepFits(LowPairs(v / 100, n - 1), PairByte(v % 100));
    } else {
      NothingRead();
    }
  }

  /** The first `m` of `n` bytes hold the number without its lowest digits. */
  lemma {:induction false} BigPairsFront(v: nat, n: nat, m: nat)
    requires m <= n
    ensures BigPairs(v, n)[..m] == BigPairs(HighPairs(v, n - m), m)
    decreases n
  {
    hide PairByte;
    if m < n {
      BigPairsFront(v / 100, n - 1, m);
      assert BigPairs(v, n)[..m] == BigPairs(v / 100, n - 1)[..m];
    } else {
      assert BigPairs(v, n)[..m] == BigPairs(v, n);
    }
  }

  lemma {:induction false} HighPairsSmaller(v: nat, n: nat)
    ensures HighPairs(v, n) <= v
    decreases n
  {
    if n > 0 {
      HighPairsSmaller(v / 100, n - 1);
    }
  }

  lemma NothingRead()
    ensures BigBcd([]) == 0
  {
  }

  // ---------- hex2bcd and bcd2hex ----------

  /** `x` moved up by `n` nibbles. */
  function Nibbles(x: nat, n: nat): nat
    decreases n
  {
    if n == 0 then x else Nibbles(16 * x, n - 1)
  }

  /** The lowest `n` decimal digits of `d`, one to a nibble. */
  function BcdOf(d: nat, n: nat): nat
    decreases n
  {
    if n == 0 then 0 else d % 10 + 16 * BcdOf(d / 10, n - 1)
  }

  lemma {:induction false} NibblesAdd(a: nat, b: nat, n: nat)
    ensures Nibbles(a + b, n) == Nibbles(a, n) + Nibbles(b, n)
    decreases n
  {
    if n > 0 {
      NibblesAdd(16 * a, 16 * b, n - 1);
    }
  }

  lemma {:induction false} NibblesMore(x: nat, n: nat)
    ensures Nibbles(16 * x, n) == Nibbles(x, n + 1)
  {
  }

  /** The number whose low bytes these are, least significant first. */
  function LittleValue(d: seq<byte>): nat {
    if d == [] then 0 else d[0] + 256 * LittleValue(d[1..])
  }

  lemma {:induction false} LittleValueFits(d: seq<byte>)
    requires |d| <= 8
    ensures LittleValue(d) < Pow256(|d|) <= U64
  {
    PowersFit(|d|);
    if d != [] {
      LittleValueFits(d[1..]);
    }
  }

  function Pow256(n: nat): nat {
    if n == 0 then 1 else 256 * Pow256(n - 1)
  }

  lemma {:induction false} PowersFit(n: nat)
    requires n <= 8
    ensures Pow256(n) <= U64
    decreases 8 - n
  {
    assert Pow256(4) == 0x1_0000_0000;
    if n < 8 {
      PowersFit(n + 1);
    }
  }

  /** `hex2bcd`: at most eight bytes are copied into a number, whose sixteen lowest digits
      go to the nibbles of the result. */
  method Hex2Bcd(hex: seq<byte>, bytes: nat) returns (r: nat)
    requires (if bytes > 8 then 8 else bytes) <= |hex|
    ensures var d := LittleValue(hex[..if bytes > 8 then 8 else bytes]);
            r == BcdOf(d, 16) && LittleBcd(Little(r, 8)) == d % 10_000_000_000_000_000
  {
    hide LittleValue, LittleBcd, Little, BcdOf;
    var n := if bytes > 8 then 8 else bytes;
    var d := LittleValue(hex[..n]);
    LittleValueFits(hex[..n]);
    BcdRoundTrip(d);
    r := PackDigits(d);
  }

  /** The loop of `hex2bcd`: each digit is set with `|` in a nibble that is still clear. */
  method PackDigits(v: nat) returns (r: nat)
    ensures r == BcdOf(v, 16)
  {
    r := 0;
    var d, i := v, 0;
    while i < 16
      invariant 0 <= i <= 16
      invariant r + Nibbles(BcdOf(d, 16 - i), i) == BcdOf(v, 16)
    {
      hide Nibbles, BcdOf;
      DigitTaken(d, 15 - i, i);
      r := r + Nibbles(d % 10, i);
      d := d / 10;
      i := i + 1;
    }
    NibblesOfNothing(16);
  }

  lemma DigitTaken(d: nat, left: nat, i: nat)
    ensures Nibbles(BcdOf(d, left + 1), i) == Nibbles(d % 10, i) + Nibbles(BcdOf(d / 10, left), i + 1)
  {
    NibblesAdd(d % 10, 16 * BcdOf(d / 10, left), i);
    NibblesMore(BcdOf(d / 10, left), i);
  }

  lemma {:induction false} NibblesOfNothing(n: nat)
    ensures Nibbles(0, n) == 0
    decreases n
  {
    if n > 0 {
      NibblesOfNothing(n - 1);
    }
  }

  /** The low `n` bytes of `r`, least significant first. */
  function Little(r: nat, n: nat): (d: seq<byte>)
    ensures |d| == n
  {
    if n == 0 then [] else [r % 256] + Little(r / 256, n - 1)
  }

  /** `bcd2hex`: the bytes from the last one down. */
  function LittleBcd(d: seq<byte>): int {
    if d == [] then 0 else BcdStep(LittleBcd(d[1..]), d[0])
  }

  method Bcd2Hex(d: seq<byte>, bytes: nat) returns (r: int)
    requires bytes <= |d|
    ensures r == LittleBcd(d[..bytes])
  {
    r := 0;
    var i := 0;
    while i < bytes
      invariant 0 <= i <= bytes
      invariant r == LittleBcd(d[bytes - i..bytes])
    {
      var b := d[bytes - 1 - i];
      assert d[bytes - 1 - i..bytes][1..] == d[bytes - i..bytes];
      ghost var before := r;
      r := r * 100 % U64;
      r := (r + Pair(b)) % U64;
      assert r == BcdStep(before, b);
      hide BcdStep;
      i := i + 1;
    }
    assert d[0..bytes] == d[..bytes];
  }

  /** Two digits make the low byte. */
  lemma BcdPair(v: nat, n: nat)
    ensures BcdOf(v, n + 2) % 256 == PairByte(v % 100)
    ensures BcdOf(v, n + 2) / 256 == BcdOf(v / 100, n)
  {
    var rest := BcdOf(v / 100, n);
    assert v / 10 / 10 == v / 100;
    assert BcdOf(v, n + 2) == v % 10 + 16 * BcdOf(v / 10, n + 1);
    assert BcdOf(v / 10, n + 1) == v / 10 % 10 + 16 * rest;
    hide BcdOf;
    assert v % 100 % 10 == v % 10 && v % 100 / 10 == v / 10 % 10;
  }

  lemma {:induction false} LittleRead(v: nat, n: nat)
    requires v < U64
    ensures LittleBcd(Little(BcdOf(v, 2 * n), n)) == LowPairs(v, n)
    decreases n
  {
    hide Pair, PairByte, BcdStep, BcdOf;
    if n > 0 {
      var r := BcdOf(v, 2 * n);
      BcdPair(v, 2 * n - 2);
      LittleRead(v / 100, n - 1);
      PairBack(v % 100);
      assert Little(r, n)[1..] == Little(r / 256, n - 1);
      StepFits(LowPairs(v / 100, n - 1), PairByte(v % 100));
    }
  }

  /** For every 64-bit number `bcd2hex` of the bytes of its `hex2bcd` gives its last
      sixteen digits. */
  lemma BcdRoundTrip(v: nat)
    requires v < U64
    ensures LittleBcd(Little(BcdOf(v, 16), 8)) == v % 10_000_000_000_000_000
  {
    LittleRead(v, 8);
    LowPairsIsModulo(v, 8);
    EightPairs();
  }

  lemma EightPairs()
    ensures Pow100(8) == 10_000_000_000_000_000
  {
    assert Pow100(4) == 100_000_000;
  }

  // ---------- hex text ----------

  const HEX_DIGITS: string := "0123456789ABCDEF"

  function HexDigit(n: int): char
    requires 0 <= n < 16
  {
    HEX_DIGITS[n]
  }

  function HexOf(data: seq<byte>): (s: string)
    ensures |s| == 2 * |data|
  {
    if data == [] then ""
    else
      var b := data[|data| - 1] as int;
      HexOf(data[..|data| - 1]) + [HexDigit(b / 16), HexDigit(b % 16)]
  }

  /** `hexarray2str` at an offset of the output; whole bytes only, as many as fit. */
  method HexArray2Str(data: seq<byte>, size: nat, str: array<char>, off: nat, room: nat) returns (n: nat)
    requires size <= |data| && off + room <= str.Length
    modifies str
    ensures n == 2 * (if size > room / 2 then room / 2 else size)
    ensures str[off..off + n] == HexOf(data[..n / 2])
    ensures str[..off] == old(str[..off]) && str[off + n..] == old(str[off + n..])
  {
    hide HexOf, HexDigit;
    var s := if size > room / 2 then room / 2 else size;
    ghost var text := HexOf(data[..s]);
    for i := 0 to s
      invariant forall k :: 0 <= k < 2 * i ==> str[off + k] == text[k]
      invariant forall k | 0 <= k < str.Length :: k < off || off + 2 * i <= k ==> str[k] == old(str[k])
    {
      HexAt(data[..s], i);
      str[off + i * 2] := HexDigit((data[i] as int) / 16);
      str[off + i * 2 + 1] := HexDigit((data[i] as int) % 16);
    }
    return s * 2;
  }

  lemma {:induction false} HexAt(d: seq<byte>, i: nat)
    requires i < |d|
    ensures HexOf(d)[2 * i] == HexDigit((d[i] as int) / 16) && HexOf(d)[2 * i + 1] == HexDigit((d[i] as int) % 16)
    decreases |d|
  {
    hide HexDigit;
    if i < |d| - 1 {
      HexAt(d[..|d| - 1], i);
    }
  }

  /** The value `str2hexarray` gives a character, in eight bits and then cut to four:
      lower-case letters work, other characters give some digit. */
  function HexValue(c: char): (v: int)
    ensures 0 <= v < 16
  {
    (if c < 'A' then c as int - '0' as int else c as int + 10 - 'A' as int) % 16
  }

  function BytesOf(s: string): (d: seq<byte>)
    ensures |d| == |s| / 2
  {
    if |s| < 2 then [] else [HexValue(s[0]) * 16 + HexValue(s[1])] + BytesOf(s[2..])
  }

  lemma HexDigitBack(n: int)
    requires 0 <= n < 16
    ensures HexValue(HexDigit(n)) == n
  {
  }

  lemma {:induction false} BytesSnoc(s: string, a: char, b: char)
    requires |s| % 2 == 0
    ensures BytesOf(s + [a, b]) == BytesOf(s) + [HexValue(a) * 16 + HexValue(b)]
    decreases |s|
  {
    var t := s + [a, b];
    if s == "" {
      assert t[2..] == "";
    } else {
      assert t[2..] == s[2..] + [a, b];
      BytesSnoc(s[2..], a, b);
    }
  }

  /** Hex text reads back as the bytes it was made from. */
  lemma {:induction false} HexRoundTrip(data: seq<byte>)
    ensures BytesOf(HexOf(data)) == data
    decreases |data|
  {
    hide HexDigit, HexValue;
    if data != [] {
      var n := |data| - 1;
      var b := data[n] as int;
      HexRoundTrip(data[..n]);
      BytesSnoc(HexOf(data[..n]), HexDigit(b / 16), HexDigit(b % 16));
      HexDigitBack(b / 16);
      HexDigitBack(b % 16);
      assert data == data[..n] + [data[n]];
    }
  }

  /** `str2hexarray` into the front of a buffer. */
  method Str2HexArray(str: string, out: array<byte>) returns (n: nat)
    modifies out
    ensures n == if out.Length > |str| / 2 then |str| / 2 else out.Length
    ensures out[..n] == BytesOf(str)[..n] && out[n..] == old(out[n..])
  {
    hide BytesOf, HexValue;
    ghost var d := BytesOf(str);
    n := if out.Length > |str| / 2 then |str| / 2 else out.Length;
    for i := 0 to n
      invariant forall k :: 0 <= k < i ==> out[k] == d[k]
      invariant forall k :: i <= k < out.Length ==> out[k] == old(out[k])
    {
      BytesAt(str, i);
      var h, l := HexValue(str[i * 2]), HexValue(str[i * 2 + 1]);
      out[i] := h * 16 + l;
    }
  }

  lemma {:induction false} BytesAt(s: string, i: nat)
    requires i < |s| / 2
    ensures BytesOf(s)[i] == HexValue(s[2 * i]) * 16 + HexValue(s[2 * i + 1])
    decreases i
  {
    if i > 0 {
      BytesAt(s[2..], i - 1);
    }
  }

  // ---------- what the digits mean ----------

  const LOWER_DIGITS: string := "0123456789abcdef"

  /** Hex digits of either case have their value; a dash counts as 13. */
  lemma HexValues(d: int)
    requires 0 <= d < 16
    ensures HexValue(HEX_DIGITS[d]) == d && HexValue(LOWER_DIGITS[d]) == d
    ensures HexValue('-') == 13
  {
  }

  /** Hex text is in upper case. */
  lemma {:induction false} HexUpper(data: seq<byte>)
    ensures forall i :: 0 <= i < |HexOf(data)| ==> '0' <= HexOf(data)[i] <= '9' || 'A' <= HexOf(data)[i] <= 'F'
    decreases |data|
  {
    if data != [] {
      var b := data[|data| - 1] as int;
      HexUpper(data[..|data| - 1]);
      DigitUpper(b / 16);
      DigitUpper(b % 16);
      hide HexDigit;
    }
  }

  lemma DigitUpper(d: int)
    requires 0 <= d < 16
    ensures '0' <= HexDigit(d) <= '9' || 'A' <= HexDigit(d) <= 'F'
  {
  }

  /** Two nibbles of any value. */
  lemma PairOfNibbles(high: int, low: int)
    requires 0 <= high < 16 && 0 <= low < 16
    ensures Pair(16 * high + low) == 10 * high + low
  {
  }

  /** The number without the limit of 64 bits. */
  function Exactly(d: seq<byte>): nat {
    if d == [] then 0 else Exactly(d[..|d| - 1]) * 100 + (d[|d| - 1] as int) / 16 * 10 + (d[|d| - 1] as int) % 16
  }

  lemma StepModulo(x: nat, b: byte)
    ensures BcdStep(x % U64, b) == (x * 100 + Pair(b)) % U64
  {
    var q, r := x / U64, x % U64;
    SameModulo(r * 100, Pair(b), r * 100 / U64, U64);
    SameModulo(x * 100, Pair(b), 100 * q + r * 100 / U64, U64);
  }

  lemma SameModulo(x: nat, p: nat, q: nat, m: nat)
    requires m > 0 && q * m <= x < q * m + m
    ensures x % m == x - q * m && (x - q * m + p) % m == (x + p) % m
  {
    var y := x - q * m;
    ModuloIs(x, q, m);
    ModuloIs(y + p, (y + p) / m, m);
    ModuloIs(x + p, q + (y + p) / m, m);
  }

  lemma ModuloIs(x: nat, q: nat, m: nat)
    requires m > 0 && q * m <= x < q * m + m
    ensures x % m == x - q * m
  {
    Multiple(q - x / m, m);
  }

  lemma Multiple(d: int, m: int)
    requires m > 0
    ensures d > 0 ==> d * m >= m
    ensures d < 0 ==> d * m <= -m
  {
  }

  function Reversed(d: seq<byte>): seq<byte> {
    if d == [] then [] else Reversed(d[1..]) + [d[0]]
  }

  /** The little-endian number is the big-endian one of the bytes from the last down. */
  lemma {:induction false} LittleIsBig(d: seq<byte>)
    ensures LittleBcd(d) == BigBcd(Reversed(d))
  {
    hide BcdStep, BigBcd;
    if d == [] {
      NothingRead();
    } else {
      LittleIsBig(d[1..]);
      BigBcdSnoc(Reversed(d[1..]), d[0]);
    }
  }

  /** Bytes of any value and number, modulo 2^64. */
  lemma {:induction false} BigBcdModulo(d: seq<byte>)
    ensures BigBcd(d) == Exactly(d) % U64
    decreases |d|
  {
    hide BcdStep;
    if d != [] {
      BigBcdModulo(d[..|d| - 1]);
      StepModulo(Exactly(d[..|d| - 1]), d[|d| - 1]);
    }
  }
}

/** UTF-8 and surrogate pairs (configor_encoding.hpp), as in RFC 3629 section 3
    and RFC 2781 sections 2.1 and 2.2. */
module Encoding {

  type byte = x: int | 0 <= x < 256

  type CodePoint = x: int | 0 <= x <= 0x10FFFF

  const U32: int := 0x1_0000_0000

  // ---------- surrogate pairs ----------

  predicate IsLeadSurrogate(c: int) {
    0xD800 <= c <= 0xDBFF
  }

  predicate IsTrailSurrogate(c: int) {
    0xDC00 <= c <= 0xDFFF
  }

  function DecodeSurrogates(lead: int, trail: int): int {
    (lead - 0xD800) * 0x400 + (trail - 0xDC00) + 0x10000
  }

  /** The two out-parameters of the original are the two components here. */
  function EncodeSurrogates(c: int): (int, int) {
    (0xD800 + (c - 0x10000) / 0x400, 0xDC00 + (c - 0x10000) % 0x400)
  }

  /** Pairs and supplementary code points are in bijection. */
  lemma SurrogatesRoundTrip(c: CodePoint, lead: int, trail: int)
    requires 0x10000 <= c
    requires IsLeadSurrogate(lead) && IsTrailSurrogate(trail)
    ensures IsLeadSurrogate(EncodeSurrogates(c).0) && IsTrailSurrogate(EncodeSurrogates(c).1)
    ensures DecodeSurrogates(EncodeSurrogates(c).0, EncodeSurrogates(c).1) == c
    ensures 0x10000 <= DecodeSurrogates(lead, trail) <= 0x10FFFF
    ensures EncodeSurrogates(DecodeSurrogates(lead, trail)) == (lead, trail)
  {
  }

  // ---------- UTF-8 ----------

  /** Bytes put on the stream for a code point the encoder accepts. The bit fields
      do not overlap, so `0x80 | (c & 0x3F)` is written `0x80 + c % 0x40`. */
  function Encode(c: CodePoint): (bs: seq<byte>)
    ensures 1 <= |bs| <= 4
  {
    if c < 0x80 then [c]
    else if c <= 0x7FF then [0xC0 + c / 0x40, 0x80 + c % 0x40]
    else if c <= 0xFFFF then [0xE0 + c / 0x1000, 0x80 + c / 0x40 % 0x40, 0x80 + c % 0x40]
    else [0xF0 + c / 0x40000, 0x80 + c / 0x1000 % 0x40, 0x80 + c / 0x40 % 0x40, 0x80 + c % 0x40]
  }

  function EncodeAll(cs: seq<CodePoint>): seq<byte> {
    if cs == [] then [] else Encode(cs[0]) + EncodeAll(cs[1..])
  }

  /** Number of bytes that follow a lead byte. */
  function ExtraBytes(b: byte): (n: nat)
    ensures n <= 5
  {
    if b < 0xC0 then 0
    else if b < 0xE0 then 1
    else if b < 0xF0 then 2
    else if b < 0xF8 then 3
    else if b < 0xFC then 4
    else 5
  }

  function Offset(extra: nat): int
    requires extra <= 5
  {
    [0x00000000, 0x00003080, 0x000E2080, 0x03C82080, 0xFA082080, 0x82082080][extra]
  }

  /** Add the bytes, shifting by six bits after each but the last, in 32-bit
      unsigned arithmetic. */
  function Accumulate(code: int, bs: seq<byte>): int
    decreases |bs|
  {
    if bs == [] then code
    else if |bs| == 1 then (code + bs[0]) % U32
    else Accumulate((code + bs[0]) % U32 * 0x40 % U32, bs[1..])
  }

  datatype Decoded = AtEnd | Malformed | Code(code: CodePoint, size: nat)

  /** One call of the decoder on the unread bytes: nothing left, a stream that went
      bad (truncated, or above U+10FFFF), or a code point and the bytes it took. */
  function DecodeOne(bs: seq<byte>): (d: Decoded)
    ensures d.Code? ==> 0 < d.size <= |bs|
    ensures d.AtEnd? <==> bs == []
  {
    if bs == [] then AtEnd
    else
      var n := ExtraBytes(bs[0]) + 1;
      if |bs| < n then Malformed
      else
        var c := (Accumulate(0, bs[..n]) - Offset(n - 1)) % U32;
        if c > 0x10FFFF then Malformed else Code(c, n)
  }

  /** The code points of a byte stream, ending properly or in a decoding error. */
  datatype Codes = End | Bad | Next(head: CodePoint, tail: Codes)

  function Size(s: Codes): nat {
    if s.Next? then 1 + Size(s.tail) else 0
  }

  function Append(cs: seq<CodePoint>, k: Codes): (r: Codes)
    ensures EndsWell(r) == EndsWell(k)
  {
    if cs == [] then k else Next(cs[0], Append(cs[1..], k))
  }

  function DecodeAll(bs: seq<byte>): Codes
    decreases |bs|
  {
    match DecodeOne(bs)
    case AtEnd => End
    case Malformed => Bad
    case Code(c, n) => Next(c, DecodeAll(bs[n..]))
  }

  /** Up to four bytes nothing wraps around. */
  lemma AccumulateStep(code: int, bs: seq<byte>)
    requires bs != [] && 0 <= code < (if |bs| == 1 then U32 else 0x400_0000) - 256
    ensures Accumulate(code, bs) ==
            if |bs| == 1 then code + bs[0] else Accumulate(0x40 * (code + bs[0]), bs[1..])
  {
    assert (code + bs[0]) % U32 == code + bs[0];
    assert |bs| > 1 ==> (code + bs[0]) % U32 * 0x40 % U32 == 0x40 * (code + bs[0]);
  }

  lemma AccumulateSteps(bs: seq<byte>)
    requires 1 <= |bs| <= 4
    ensures |bs| == 1 ==> Accumulate(0, bs) == bs[0]
    ensures |bs| == 2 ==> Accumulate(0, bs) == 0x40 * (bs[0] as int) + bs[1]
    ensures |bs| == 3 ==> Accumulate(0, bs) == 0x1000 * (bs[0] as int) + 0x40 * (bs[1] as int) + bs[2]
    ensures |bs| == 4 ==>
              Accumulate(0, bs) == 0x40000 * (bs[0] as int) + 0x1000 * (bs[1] as int) + 0x40 * (bs[2] as int) + bs[3]
  {
    var code: int, rest := 0, bs;
    while |rest| > 1
      invariant 1 <= |rest| <= |bs| && rest == bs[|bs| - |rest|..]
      invariant Accumulate(0, bs) == Accumulate(code, rest)
      invariant |rest| == |bs| ==> code == 0
      invariant |rest| == |bs| - 1 ==> code == 0x40 * (bs[0] as int)
      invariant |rest| == |bs| - 2 ==> code == 0x1000 * (bs[0] as int) + 0x40 * (bs[1] as int)
      invariant |rest| == |bs| - 3 ==>
          code == 0x40000 * (bs[0] as int) + 0x1000 * (bs[1] as int) + 0x40 * (bs[2] as int)
    {
      AccumulateStep(code, rest);
      code, rest := 0x40 * (code + rest[0]), rest[1..];
    }
    AccumulateStep(code, rest);
  }

  /** Taking the fields of a code point apart and putting them together. */
  lemma Fields(c: CodePoint)
    ensures 0x40 * (c / 0x40) + c % 0x40 == c
    ensures 0x40 * (c / 0x1000) + c / 0x40 % 0x40 == c / 0x40
    ensures 0x40 * (c / 0x40000) + c / 0x1000 % 0x40 == c / 0x1000
  {
  }

  /** The bytes of a code point decode to it whatever follows: the lead byte alone
      fixes how many bytes are read. */
  lemma DecodeEncode(c: CodePoint, rest: seq<byte>)
    ensures ExtraBytes(Encode(c)[0]) + 1 == |Encode(c)|
    ensures |Encode(c)| == (if c < 0x80 then 1 else if c < 0x800 then 2 else if c < 0x10000 then 3 else 4)
    ensures DecodeOne(Encode(c) + rest) == Code(c, |Encode(c)|)
  {
    hide Accumulate;
    var e := Encode(c);
    assert (e + rest)[..|e|] == e;
    assert (e + rest)[0] == e[0];
    assert Accumulate(0, e) - Offset(|e| - 1) == c by {
      AccumulateSteps(e);
      Fields(c);
    }
  }

  /** Encoding any code points and decoding one by one restores them exactly. */
  lemma {:induction false} DecodeEncodeAll(cs: seq<CodePoint>, rest: seq<byte>)
    ensures DecodeAll(EncodeAll(cs) + rest) == Append(cs, DecodeAll(rest))
  {
    if cs == [] {
      assert EncodeAll(cs) + rest == rest;
    } else {
      var e := Encode(cs[0]);
      var more := EncodeAll(cs[1..]) + rest;
      assert EncodeAll(cs) + rest == e + more;
      DecodeEncode(cs[0], more);
      assert (e + more)[|e|..] == more;
      DecodeEncodeAll(cs[1..], rest);
    }
  }

  // ---------- any bytes ----------

  /** The bytes a lead byte announces, itself included, and its own bits. A byte that may
      only follow others stands for itself. */
  function LeadSize(lead: byte): nat {
    if lead <= 0xBF then 1 else if lead <= 0xDF then 2 else if lead <= 0xEF then 3
    else if lead <= 0xF7 then 4 else if lead <= 0xFB then 5 else 6
  }

  function LeadBase(lead: byte): nat {
    if lead <= 0xBF then 0 else if lead <= 0xDF then 0xC0 else if lead <= 0xEF then 0xE0
    else if lead <= 0xF7 then 0xF0 else if lead <= 0xFB then 0xF8 else 0xFC
  }

  type SixBits = x: int | 0 <= x < 0x40

  /** Six more bits for each of `cs`. */
  function Bits(p: int, cs: seq<SixBits>): (r: int)
    ensures 0 <= p ==> 0 <= r
    decreases |cs|
  {
    if cs == [] then p else Bits(0x40 * p + cs[0], cs[1..])
  }

  function Following(cs: seq<SixBits>): (bs: seq<byte>)
    ensures |bs| == |cs|
    decreases |cs|
  {
    if cs == [] then [] else [0x80 + (cs[0] as int)] + Following(cs[1..])
  }

  /** The sum without the limit of 32 bits. */
  function Poly(code: int, bs: seq<byte>): int
    decreases |bs|
  {
    if bs == [] then code else if |bs| == 1 then code + bs[0] else Poly(0x40 * (code + bs[0]), bs[1..])
  }

  lemma {:induction false} PolyModulo(x: int, q: int, bs: seq<byte>)
    requires bs != []
    ensures Poly(x - U32 * q, bs) % U32 == Poly(x, bs) % U32
    decreases |bs|
  {
    if |bs| == 1 {
      ModuloShifted(x + bs[0], q);
    } else {
      PolyModulo(0x40 * (x + bs[0]), 0x40 * q, bs[1..]);
      assert 0x40 * (x - U32 * q + bs[0]) == 0x40 * (x + bs[0]) - U32 * (0x40 * q);
    }
  }

  lemma ModuloShifted(x: int, q: int)
    ensures (x - U32 * q) % U32 == x % U32
  {
  }

  lemma Quotients(x: int)
    ensures x % U32 * 0x40 % U32 == 0x40 * x - U32 * (0x40 * (x / U32) + x % U32 * 0x40 / U32)
  {
  }

  lemma {:induction false} AccumulateModulo(code: int, bs: seq<byte>)
    requires bs != []
    ensures Accumulate(code, bs) == Poly(code, bs) % U32
    decreases |bs|
  {
    if |bs| > 1 {
      var x := code + bs[0];
      Quotients(x);
      AccumulateModulo(x % U32 * 0x40 % U32, bs[1..]);
      PolyModulo(0x40 * x, 0x40 * (x / U32) + x % U32 * 0x40 / U32, bs[1..]);
    }
  }

  /** What the marks of `n` following bytes add up to, behind a lead byte with base `k`. */
  function Marks(k: int, n: nat): int
    decreases n
  {
    if n == 0 then k else Marks(0x40 * k + 0x80, n - 1)
  }

  lemma {:induction false} PolyBits(p: int, k: int, cs: seq<SixBits>)
    requires cs != []
    ensures Poly(0x40 * (p + k), Following(cs)) == Bits(p, cs) + Marks(k, |cs|)
    decreases |cs|
  {
    var f := Following(cs);
    assert f[1..] == Following(cs[1..]);
    if |cs| > 1 {
      PolyBits(0x40 * p + cs[0], 0x40 * k + 0x80, cs[1..]);
    }
  }

  lemma OffsetIsMarks(n: nat)
    requires n <= 5
    ensures (Marks([0, 0xC0, 0xE0, 0xF0, 0xF8, 0xFC][n], n) - Offset(n)) % U32 == 0
  {
    hide Marks;
    var k := [0, 0xC0, 0xE0, 0xF0, 0xF8, 0xFC][n];
    MarksUnfold(k, n);
  }

  lemma MarksUnfold(k: int, n: nat)
    requires n <= 5
    ensures n == 0 ==> Marks(k, n) == k
    ensures n == 1 ==> Marks(k, n) == 0x40 * k + 0x80
    ensures n == 2 ==> Marks(k, n) == 0x1000 * k + 0x2080
    ensures n == 3 ==> Marks(k, n) == 0x40000 * k + 0x82080
    ensures n == 4 ==> Marks(k, n) == 0x1000000 * k + 0x2082080
    ensures n == 5 ==> Marks(k, n) == 0x40000000 * k + 0x82082080
  {
    var a := 0x40 * k + 0x80;
    var b := 0x40 * a + 0x80;
    var c := 0x40 * b + 0x80;
    var d := 0x40 * c + 0x80;
    assert n > 0 ==> Marks(k, n) == Marks(a, n - 1);
    assert n > 1 ==> Marks(a, n - 1) == Marks(b, n - 2);
    assert n > 2 ==> Marks(b, n - 2) == Marks(c, n - 3);
    assert n > 3 ==> Marks(c, n - 3) == Marks(d, n - 4);
  }

  lemma {:induction false} BitsBound(p: int, cs: seq<SixBits>, m: int)
    requires 0 <= p < m
    ensures 0 <= Bits(p, cs) < Bits(m, seq(|cs|, _ => 0))
    decreases |cs|
  {
    var zeros := seq(|cs|, _ => 0);
    if cs != [] {
      BitsBound(0x40 * p + cs[0], cs[1..], 0x40 * m);
      assert zeros[1..] == seq(|cs[1..]|, _ => 0);
    }
  }

  lemma BitsFit(p: int, cs: seq<SixBits>)
    requires |cs| <= 5 && 0 <= p < (if |cs| == 5 then 4 else 0x100)
    ensures 0 <= Bits(p, cs) < U32
  {
    hide Bits;
    var m := if |cs| == 5 then 4 else 0x100;
    BitsBound(p, cs, m);
    ZeroBits(m, |cs|);
  }

  lemma ZeroBits(m: int, n: nat)
    requires n <= 5 && 0 <= m
    ensures Bits(m, seq(n, _ => 0)) <= (if n == 5 then 0x40000000 * m else 0x1000000 * m)
    decreases n
  {
    ZeroBitsExactly(m, n);
  }

  lemma {:induction false} ZeroBitsExactly(m: int, n: nat)
    ensures Bits(m, seq(n, _ => 0)) == m * Power64(n)
    ensures n <= 5 ==> Power64(n) == [1, 0x40, 0x1000, 0x40000, 0x1000000, 0x40000000][n]
    decreases n
  {
    var zeros: seq<SixBits> := seq(n, _ => 0);
    if n > 0 {
      assert zeros[1..] == seq(n - 1, _ => 0);
      ZeroBitsExactly(0x40 * m, n - 1);
      Regrouped(m, Power64(n - 1));
    }
  }

  lemma Regrouped(m: int, p: int)
    ensures (0x40 * m) * p == m * (0x40 * p)
  {
  }

  function Power64(n: nat): int {
    if n == 0 then 1 else 0x40 * Power64(n - 1)
  }

  /** Any lead byte with as many following bytes as it announces: their bits, one after the
      other, if that is a code point. */
  lemma DecodeBits(lead: byte, cs: seq<SixBits>, rest: seq<byte>)
    requires |cs| + 1 == LeadSize(lead)
    ensures var c := Bits(lead - LeadBase(lead), cs);
            DecodeOne([lead] + Following(cs) + rest) == if c > 0x10FFFF then Malformed else Code(c, LeadSize(lead))
  {
    hide Bits, Following, Accumulate, Offset, Marks;
    var n := |cs|;
    var own := [lead] + Following(cs);
    var bs := own + rest;
    assert bs[0] == lead && bs[..n + 1] == own;
    var c := Bits(lead - LeadBase(lead), cs);
    BitsFit(lead - LeadBase(lead), cs);
    OffsetIsMarks(n);
    SumOfBits(lead, cs);
    Difference(c, Marks(LeadBase(lead), n), Offset(n));
  }

  lemma SumOfBits(lead: byte, cs: seq<SixBits>)
    requires |cs| + 1 == LeadSize(lead)
    ensures Accumulate(0, [lead] + Following(cs)) ==
            (Bits(lead - LeadBase(lead), cs) + Marks(LeadBase(lead), |cs|)) % U32
  {
    hide Accumulate, Bits;
    var own := [lead] + Following(cs);
    AccumulateModulo(0, own);
    assert own[1..] == Following(cs);
    if cs != [] {
      PolyBits(lead - LeadBase(lead), LeadBase(lead), cs);
    } else {
      NoBits(lead);
    }
  }

  lemma NoBits(p: int)
    ensures Bits(p, []) == p && Marks(0, 0) == 0
  {
  }

  lemma Difference(c: int, m: int, o: int)
    requires 0 <= c < U32 && (m - o) % U32 == 0
    ensures ((c + m) % U32 - o) % U32 == c
  {
    var q := (m - o) / U32;
    assert c + m - o == c + U32 * q;
  }

  /** Fewer bytes than announced are an error. */
  lemma Truncated(bs: seq<byte>)
    requires bs != [] && |bs| < LeadSize(bs[0])
    ensures DecodeAll(bs) == Bad
  {
  }

  /** The code points decoded before the end of the stream or its first error. */
  function Points(s: Codes): seq<CodePoint> {
    if s.Next? then [s.head] + Points(s.tail) else []
  }

  predicate EndsWell(s: Codes) {
    if s.Next? then EndsWell(s.tail) else s.End?
  }

  lemma {:induction false} PointsOfAppend(cs: seq<CodePoint>)
    ensures Points(Append(cs, End)) == cs
  {
    if cs != [] {
      PointsOfAppend(cs[1..]);
    }
  }

  /** Different code point sequences have different encodings. */
  lemma EncodeAllInjective(a: seq<CodePoint>, b: seq<CodePoint>)
    requires EncodeAll(a) == EncodeAll(b)
    ensures a == b
  {
    DecodeEncodeAll(a, []);
    DecodeEncodeAll(b, []);
    assert EncodeAll(a) + [] == EncodeAll(a);
    assert EncodeAll(b) + [] == EncodeAll(b);
    PointsOfAppend(a);
    PointsOfAppend(b);
  }

  // ---------- the stream the decoder reads ----------

  /** An input stream over a string: position and the two state bits. */
  class InStream {
    const data: seq<byte>
    var pos: nat
    var eofbit: bool
    var failbit: bool

    /** What the bytes from each position on decode to. */
    ghost const decoded: seq<Codes>

    ghost predicate Valid()
      reads this
    {
      && pos <= |data| == |decoded| - 1
      && (eofbit ==> pos == |data|)
      && forall p {:trigger DecodeAll(data[p..])} :: 0 <= p <= |data| ==> decoded[p] == DecodeAll(data[p..])
    }

    ghost function Unread(): Codes
      requires Valid()
      reads this
    {
      decoded[pos]
    }

    constructor (bytes: seq<byte>)
      ensures Valid() && data == bytes && pos == 0 && !eofbit && !failbit
      ensures Unread() == DecodeAll(bytes)
    {
      data := bytes;
      pos, eofbit, failbit := 0, false, false;
      decoded := seq(|bytes| + 1, p requires 0 <= p <= |bytes| => DecodeAll(bytes[p..]));
      new;
      assert bytes[0..] == bytes;
    }

    predicate Good()
      reads this
    {
      !eofbit && !failbit
    }

    /** -1 at the end of the stream, which also sets eofbit. */
    method Peek() returns (b: int)
      requires Valid()
      modifies this
      ensures Valid() && pos == old(pos)
      ensures eofbit == (old(eofbit) || (old(Good()) && pos == |data|))
      ensures failbit == (old(failbit) || old(eofbit))
      ensures old(Good()) && pos < |data| ==> b == data[pos]
    {
      if !Good() {
        failbit := true;
        return -1;
      }
      if pos == |data| {
        eofbit := true;
        return -1;
      }
      return data[pos];
    }

    method Get() returns (b: int)
      requires Valid()
      modifies this
      ensures Valid()
      ensures old(Good()) && old(pos) < |data| ==> b == data[old(pos)] && pos == old(pos) + 1 && Good()
      ensures !(old(Good()) && old(pos) < |data|) ==> b == -1 && pos == old(pos) && failbit
      ensures eofbit == (old(eofbit) || (old(Good()) && old(pos) == |data|))
    {
      if !Good() {
        failbit := true;
        return -1;
      }
      if pos == |data| {
        eofbit, failbit := true, true;
        return -1;
      }
      b := data[pos];
      pos := pos + 1;
    }
  }

  /** The fall-through switch of `utf8::decode`: `extra` bytes each followed by a shift,
      and one last byte. */
  method ReadBytes(input: InStream, extra: nat) returns (code: int)
    requires input.Valid() && input.Good()
    modifies input
    ensures input.Valid()
    ensures var bs := old(input.data[input.pos..]);
            if extra < |bs|
            then input.Good() && input.pos == old(input.pos) + extra + 1 && code == Accumulate(0, bs[..extra + 1])
            else !input.Good()
  {
    hide Accumulate, DecodeAll;
    code := 0;
    ghost var start, bs := input.pos, input.data[input.pos..];
    ghost var all := if extra < |bs| then Accumulate(0, bs[..extra + 1]) else 0;
    var left := extra;
    while left > 0
      invariant input.Valid() && 0 <= left <= extra
      invariant input.Good() ==> input.pos == start + extra - left && extra - left <= |bs|
      invariant input.Good() && extra < |bs| ==> all == Accumulate(code, bs[extra - left..extra + 1])
      invariant !input.Good() ==> |bs| <= extra
    {
      if extra < |bs| {
        AccumulateFirst(code, bs, extra - left, extra + 1);
      }
      var b := input.Get();
      code := (code + b % 256) % U32;
      code := code * 0x40 % U32;
      left := left - 1;
    }
    if extra < |bs| {
      AccumulateFirst(code, bs, extra, extra + 1);
    }
    var last := input.Get();
    code := (code + last % 256) % U32;
  }

  /** The first of the bytes from `i` to `j`. */
  lemma AccumulateFirst(code: int, bs: seq<byte>, i: nat, j: nat)
    requires i < j <= |bs|
    ensures Accumulate(code, bs[i..j]) ==
            if i + 1 == j then (code + bs[i]) % U32 else Accumulate((code + bs[i]) % U32 * 0x40 % U32, bs[i + 1..j])
  {
    assert bs[i..j][1..] == bs[i + 1..j];
  }

  /** `utf8::decode` */
  method Decode(input: InStream) returns (more: bool, code: int)
    requires input.Valid() && (input.failbit ==> input.eofbit)
    modifies input
    ensures input.Valid()
    ensures old(input.eofbit) ==> !more && input.eofbit
    ensures !old(input.eofbit) ==>
              match old(input.Unread())
              case End => !more && input.eofbit
              case Bad => more && !input.Good()
              case Next(c, rest) => more && input.Good() && code == c && input.Unread() == rest
  {
    hide Offset, ExtraBytes, Accumulate;
    code := 0;
    ghost var start, bs := input.pos, input.data[input.pos..];
    var first := input.Peek();
    if input.eofbit {
      return false, code;
    }
    var extra := ExtraBytes(first);
    code := ReadBytes(input, extra);
    code := (code - Offset(extra)) % U32;
    assert DecodeAll(bs) == DecodeAll(input.data[start..]);
    if code > 0x10FFFF {
      input.failbit := true;
    }
    assert input.Good() ==> bs[extra + 1..] == input.data[input.pos..];
    return true, code;
  }
}

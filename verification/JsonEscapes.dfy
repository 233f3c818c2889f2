/** What the reader makes of any string literal, whoever wrote it: plain text, the
    one-letter escapes, and `\u` escapes in either case (RFC 8259 section 7). */
module JsonEscapes {
  import opened Outcomes
  import opened Encoding
  import opened Json
  import opened JsonScanner
  import opened JsonGrammar
  import opened JsonShow
  import JsonStrings

  // ---------- hex digits ----------

  const LOWER: string := "0123456789abcdef"
  const UPPER: string := "0123456789ABCDEF"

  /** `c` is the hex digit of value `d`, in either case. */
  predicate Denotes(c: CodePoint, d: int) {
    0 <= d < 16 && (c == LOWER[d] as int || c == UPPER[d] as int)
  }

  /** Every hex digit of either case has the value of its position, and nothing else is
      one. */
  lemma HexDigits(c: CodePoint, d: int)
    ensures Denotes(c, d) <==> IsHex(c) && HexValue(c) == d
  {
  }

  lemma OneDigit(n: nat, code: int, s: View, c: CodePoint, d: int, t: View, sum: int)
    requires s.Next? && s.tail == t && t.Next? && t.head == c && Denotes(c, d) && sum == 16 * code + d
    ensures ReadHex(n + 1, code, s) == ReadHex(n, sum, t)
  {
    HexDigits(c, d);
    hide Denotes, IsHex, HexValue;
  }

  lemma TwoDigits(n: nat, code: int, v: View, h: CodePoint, g: CodePoint, d: int, e: int, k: Codes, sum: int)
    requires Denotes(h, d) && Denotes(g, e) && v.Next? && v.tail == Next(h, Next(g, k))
    requires sum == 256 * code + 16 * d + e
    ensures ReadHex(n + 2, code, v) == ReadHex(n, sum, Next(g, k))
  {
    hide Denotes, ReadHex;
    OneDigit(n + 1, code, v, h, d, Next(h, Next(g, k)), 16 * code + d);
    OneDigit(n, 16 * code + d, Next(h, Next(g, k)), g, e, Next(g, k), sum);
  }

  lemma NoDigits(code: int, s: View)
    ensures ReadHex(0, code, s) == Ok(Escaped(code, s))
  {
  }

  /** Four hex digits in front of `k`, read as a number in base 16. */
  lemma FourDigits(v: View, h: seq<CodePoint>, d: seq<int>, k: Codes)
    requires FourHex(h, d) && v.Next? && v.tail == Next(h[0], Next(h[1], Next(h[2], Next(h[3], k))))
    ensures ReadHex(4, 0, v) == Ok(Escaped(Base16(d), Next(h[3], k)))
  {
    assert Denotes(h[0], d[0]) && Denotes(h[1], d[1]) && Denotes(h[2], d[2]) && Denotes(h[3], d[3]);
    var half := 16 * d[0] + d[1];
    var rest: Codes := Next(h[2], Next(h[3], k));
    NoDigits(Base16(d), Next(h[3], k));
    hide Denotes, ReadHex, FourHex;
    assert Base16(d) == 256 * half + 16 * d[2] + d[3];
    hide Base16;
    TwoDigits(2, 0, v, h[0], h[1], d[0], d[1], rest, half);
    TwoDigits(0, half, Next(h[1], rest), h[2], h[3], d[2], d[3], k, Base16(d));
  }

  function Base16(d: seq<int>): int
    requires |d| == 4
  {
    ((d[0] * 16 + d[1]) * 16 + d[2]) * 16 + d[3]
  }

  lemma Base16Range(h: seq<CodePoint>, d: seq<int>)
    requires FourHex(h, d)
    ensures 0 <= Base16(d) <= 0xFFFF
  {
    assert Denotes(h[0], d[0]) && Denotes(h[1], d[1]) && Denotes(h[2], d[2]) && Denotes(h[3], d[3]);
    hide Denotes;
  }

  /** The text of a `\u` escape with the digits `h` in front of `k`. */
  function Escape(h: seq<CodePoint>, k: Codes): Codes
    requires |h| == 4
  {
    Next(0x5C, Next(0x75, Next(h[0], Next(h[1], Next(h[2], Next(h[3], k))))))
  }

  ghost predicate FourHex(h: seq<CodePoint>, d: seq<int>) {
    |h| == |d| == 4 && forall i :: 0 <= i < 4 ==> Denotes(h[i], d[i])
  }

  /** An escape that is no lead surrogate puts its code point into the string. */
  lemma EscapeRead(out: seq<byte>, v: View, h: seq<CodePoint>, d: seq<int>, k: View)
    requires FourHex(h, d) && v.Next? && v.tail == Escape(h, k)
    requires Base16(d) < 0xD800 || Base16(d) > 0xDBFF
    ensures 0 <= Base16(d) <= 0xFFFF
    ensures ScanString(out, v) == ScanString(out + Encode(Base16(d)), Next(h[3], k))
  {
    Base16Range(h, d);
    FourDigits(v.tail.tail, h, d, k);
    hide ReadHex, Encode, Denotes;
    assert ReadUnicode(v.tail.tail) == Ok(Escaped(Base16(d), Next(h[3], k)));
    hide ReadUnicode;
    assert ReadEscape(v.tail) == Ok(Text(Encode(Base16(d)), Next(h[3], k)));
  }

  lemma PairUnicode(u: View, h: seq<CodePoint>, d: seq<int>, g: seq<CodePoint>, e: seq<int>, k: View)
    requires FourHex(h, d) && FourHex(g, e) && Next(0x5C, u) == Escape(h, Escape(g, k))
    requires IsLeadSurrogate(Base16(d)) && IsTrailSurrogate(Base16(e))
    ensures ReadUnicode(u) == Ok(Escaped(DecodeSurrogates(Base16(d), Base16(e)), Next(g[3], k)))
  {
    var second: View := Escape(g, k);
    FourDigits(u, h, d, second);
    FourDigits(second.tail, g, e, k);
    hide ReadHex, ReadUnicode, Denotes, FourHex, Base16, DecodeSurrogates;
    JsonStrings.SecondRead(u, Base16(d), Next(h[3], second), Base16(e), Next(g[3], k));
  }

  /** A lead surrogate and a trail surrogate, both escaped, are one code point. */
  lemma PairRead(out: seq<byte>, v: View, h: seq<CodePoint>, d: seq<int>, g: seq<CodePoint>, e: seq<int>, k: View)
    requires FourHex(h, d) && FourHex(g, e) && v.Next? && v.tail == Escape(h, Escape(g, k))
    requires 0xD800 <= Base16(d) <= 0xDBFF && 0xDC00 <= Base16(e) <= 0xDFFF
    ensures var c := 0x10000 + (Base16(d) - 0xD800) * 0x400 + (Base16(e) - 0xDC00);
            && 0x10000 <= c <= 0x10FFFF
            && ScanString(out, v) == ScanString(out + Encode(c), Next(g[3], k))
  {
    PairValue(Base16(d), Base16(e));
    assert v.tail == Next(0x5C, v.tail.tail) && v.tail.tail.head == 0x75;
    hide ReadHex, ReadUnicode, Encode, Denotes, FourHex, Base16, Escape, DecodeSurrogates, ScanString;
    PairUnicode(v.tail.tail, h, d, g, e, k);
    UnicodeRead(out, v, DecodeSurrogates(Base16(d), Base16(e)), Next(g[3], k));
  }

  lemma PairValue(lead: int, trail: int)
    requires IsLeadSurrogate(lead) && IsTrailSurrogate(trail)
    ensures DecodeSurrogates(lead, trail) == 0x10000 + (lead - 0xD800) * 0x400 + (trail - 0xDC00)
    ensures 0x10000 <= DecodeSurrogates(lead, trail) <= 0x10FFFF
  {
  }

  lemma UnicodeRead(out: seq<byte>, v: View, c: CodePoint, end: View)
    requires v.Next? && v.tail.Next? && v.tail.head == 0x5C && v.tail.tail.Next? && v.tail.tail.head == 0x75
    requires ReadUnicode(v.tail.tail) == Ok(Escaped(c, end))
    ensures ScanString(out, v) == ScanString(out + Encode(c), end)
  {
    hide ReadUnicode, Encode;
    assert ReadEscape(v.tail) == Ok(Text(Encode(c), end));
  }

  /** A lead surrogate without an escaped trail surrogate behind it is an error. */
  lemma LoneLead(out: seq<byte>, v: View, h: seq<CodePoint>, d: seq<int>, k: View)
    requires FourHex(h, d) && v.Next? && v.tail == Escape(h, k)
    requires 0xD800 <= Base16(d) <= 0xDBFF
    requires forall g, e, r :: FourHex(g, e) && k == Escape(g, r) ==> Base16(e) < 0xDC00 || 0xDFFF < Base16(e)
    ensures ScanString(out, v) == Err(Thrown)
  {
    FourDigits(v.tail.tail, h, d, k);
    if k.Next? && k.head == 0x5C && k.tail.Next? && k.tail.head == 0x75 {
      var e := ReadHex(4, 0, k.tail);
      if e.Ok? {
        var g, n := DigitsOf(k.tail);
        FourDigits(k.tail, g, n, k.tail.tail.tail.tail.tail.tail);
        assert k == Escape(g, k.tail.tail.tail.tail.tail.tail);
      }
    }
    hide ReadHex, Denotes, FourHex;
    assert ReadUnicode(v.tail.tail) == Err(Thrown);
    hide ReadUnicode;
    assert ReadEscape(v.tail) == Err(Thrown);
  }

  /** Where four hex digits are read there are four. */
  lemma DigitsOf(s: View) returns (h: seq<CodePoint>, d: seq<int>)
    requires s.Next? && ReadHex(4, 0, s).Ok?
    ensures FourHex(h, d) && s.tail.Next? && s.tail.tail.Next? && s.tail.tail.tail.Next? && s.tail.tail.tail.tail.Next?
    ensures s.tail == Next(h[0], Next(h[1], Next(h[2], Next(h[3], s.tail.tail.tail.tail.tail))))
  {
    hide Denotes, HexValue;
    var h0, c0 := DigitOf(4, 0, s);
    var h1, c1 := DigitOf(3, c0, s.tail);
    var h2, c2 := DigitOf(2, c1, s.tail.tail);
    var h3, c3 := DigitOf(1, c2, s.tail.tail.tail);
    h, d := [h0, h1, h2, h3], [HexValue(h0), HexValue(h1), HexValue(h2), HexValue(h3)];
    HexDigits(h0, HexValue(h0));
    HexDigits(h1, HexValue(h1));
    HexDigits(h2, HexValue(h2));
    HexDigits(h3, HexValue(h3));
  }

  lemma DigitOf(n: nat, code: int, s: View) returns (h: CodePoint, c: int)
    requires n > 0 && s.Next? && ReadHex(n, code, s).Ok?
    ensures s.tail.Next? && s.tail.head == h && IsHex(h)
    ensures c == 16 * code + HexValue(h) && ReadHex(n - 1, c, s.tail).Ok?
  {
    h := s.tail.head;
    c := 16 * code + HexValue(h);
  }

  // ---------- the other escapes ----------

  /** The one-letter escapes and what they stand for. */
  const LETTERS: seq<(int, int)> := [
    (0x22, 0x22), (0x5C, 0x5C), (0x2F, 0x2F), (0x62, 0x08), (0x66, 0x0C), (0x6E, 0x0A), (0x72, 0x0D), (0x74, 0x09)]

  lemma LetterRead(out: seq<byte>, v: View, i: nat, k: View)
    requires i < |LETTERS| && v.Next? && v.tail == Next(0x5C, Next(LETTERS[i].0, k))
    ensures 0 <= LETTERS[i].1 < 0x80
    ensures ScanString(out, v) == ScanString(out + [LETTERS[i].1], Next(LETTERS[i].0, k))
  {
    hide ReadUnicode;
    LetterMeans(i);
  }

  lemma LetterMeans(i: nat)
    requires i < |LETTERS|
    ensures SimpleEscape(LETTERS[i].0) == LETTERS[i].1 && 0 <= LETTERS[i].1 < 0x80 && LETTERS[i].0 != 0x75
  {
  }

  /** A backslash in front of anything else is an error. */
  lemma NoSuchEscape(out: seq<byte>, v: View, c: CodePoint, k: View)
    requires v.Next? && v.tail == Next(0x5C, Next(c, k))
    requires c != 0x75 && forall i :: 0 <= i < |LETTERS| ==> c != LETTERS[i].0
    ensures ScanString(out, v) == Err(Thrown)
  {
    hide ReadUnicode;
    assert LETTERS[0].0 == 0x22 && LETTERS[1].0 == 0x5C && LETTERS[2].0 == 0x2F && LETTERS[3].0 == 0x62;
    assert LETTERS[4].0 == 0x66 && LETTERS[5].0 == 0x6E && LETTERS[6].0 == 0x72 && LETTERS[7].0 == 0x74;
  }

  // ---------- plain text ----------

  /** May stand in a string literal as itself. */
  predicate Plain(c: CodePoint) {
    0x20 <= c && c != 0x22 && c != 0x5C
  }

  lemma {:induction false} PlainRead(out: seq<byte>, v: View, cs: seq<CodePoint>, k: View) returns (last: View)
    requires (forall i :: 0 <= i < |cs| ==> Plain(cs[i])) && v.Next? && v.tail == Append(cs, k)
    ensures last.Next? && last.tail == k
    ensures ScanString(out, v) == ScanString(out + EncodeAll(cs), last)
    decreases |cs|
  {
    if cs == [] {
      assert out + EncodeAll(cs) == out;
      last := v;
    } else {
      var c, rest := cs[0], cs[1..];
      PlainOne(out, v, c);
      last := PlainRead(out + Encode(c), v.tail, rest, k);
      assert out + EncodeAll(cs) == out + Encode(c) + EncodeAll(rest);
    }
  }

  lemma PlainOne(out: seq<byte>, v: View, c: CodePoint)
    requires Plain(c) && v.Next? && v.tail.Next? && v.tail.head == c
    ensures ScanString(out, v) == ScanString(out + Encode(c), v.tail)
  {
    hide Encode, ReadEscape;
  }

  /** The closing quote ends the string; a control character, or the end of the input,
      is an error. */
  lemma StringEnds(out: seq<byte>, v: View)
    requires v.Next?
    ensures v.tail.Next? && v.tail.head == 0x22 && !v.tail.tail.Bad? ==>
              ScanString(out, v) == Ok(Text(out, v.tail.tail))
    ensures v.tail.Next? && v.tail.head < 0x20 ==> ScanString(out, v) == Err(Thrown)
    ensures !v.tail.Next? ==> ScanString(out, v) == Err(Thrown)
  {
    hide ReadEscape;
  }

  // ---------- whole documents ----------

  /** A document that is one string literal. */
  lemma LiteralParsed(s: View, text: seq<byte>)
    requires s.Next? && s.head == 0x22 && ScanString([], s) == Ok(Text(text, End))
    ensures ParseDocument(s) == Ok(Str(text))
  {
    hide ScanString;
    assert SkipSpaces(s) == Ok(s);
    assert ScanToken(s) == Ok(Scanned(ValueString, false, 0, s));
    assert Scan(s) == Ok(Scanned(ValueString, false, 0, s));
    assert ParseValue(s) == Ok(Parsed(Str(text), End));
    assert Scan(End) == Ok(Scanned(EndOfInput, false, 0, End));
  }

  lemma LiteralFails(s: View)
    requires s.Next? && s.head == 0x22 && ScanString([], s) == Err(Thrown)
    ensures ParseDocument(s) == Err(Thrown)
  {
    hide ScanString;
    assert SkipSpaces(s) == Ok(s);
    assert ScanToken(s) == Ok(Scanned(ValueString, false, 0, s));
    assert Scan(s) == Ok(Scanned(ValueString, false, 0, s));
    hide Scan;
    assert ParseToken(Scanned(ValueString, false, 0, s)) == Err(Thrown);
    assert ParseValue(s) == Err(Thrown);
  }

  /** The literal `"\uXXXX"`, as any writer may put it: the code point its digits denote. */
  lemma EscapeParsed(bytes: seq<byte>, h: seq<CodePoint>, d: seq<int>)
    requires FourHex(h, d) && DecodeAll(bytes) == Next(0x22, Escape(h, Next(0x22, End)))
    ensures 0 <= Base16(d) <= 0xFFFF
    ensures Parse(bytes) == if 0xD800 <= Base16(d) <= 0xDBFF then Err(Thrown) else Ok(Str(Encode(Base16(d))))
  {
    Base16Range(h, d);
    var k: View := Next(0x22, End);
    var s: View := Next(0x22, Escape(h, k));
    if 0xD800 <= Base16(d) <= 0xDBFF {
      NoEscape(k);
      hide FourHex, Base16, ScanString, ParseDocument, Encode;
      LoneLead([], s, h, d, k);
      LiteralFails(s);
    } else {
      hide FourHex, Base16, ScanString, ParseDocument, Encode;
      EscapeRead([], s, h, d, k);
      StringEnds([] + Encode(Base16(d)), Next(h[3], k));
      assert [] + Encode(Base16(d)) == Encode(Base16(d));
      LiteralParsed(s, Encode(Base16(d)));
    }
  }

  lemma NoEscape(k: View)
    requires k == Next(0x22, End)
    ensures forall g, e, r :: FourHex(g, e) ==> k != Escape(g, r)
  {
    hide FourHex;
  }

  lemma LiteralDecoded(h: seq<byte>)
    requires |h| == 4 && forall i :: 0 <= i < 4 ==> h[i] < 0x80
    ensures DecodeAll([0x22, 0x5C, 0x75] + h + [0x22]) == Next(0x22, Escape(h, Next(0x22, End)))
  {
    var bytes: seq<byte> := [0x22, 0x5C, 0x75] + h + [0x22];
    AsciiDecoded(bytes);
    hide DecodeAll;
    LiteralAppended(h);
  }

  lemma AsciiDecoded(bytes: seq<byte>)
    requires IsAscii(bytes)
    ensures DecodeAll(bytes) == Append(bytes, End)
  {
    AsciiEncodes(bytes);
    DecodeEncodeAll(bytes, []);
    assert bytes + [] == bytes;
    assert DecodeAll([]) == End;
  }

  lemma Cons(c: CodePoint, rest: seq<CodePoint>)
    ensures Append([c] + rest, End) == Next(c, Append(rest, End))
  {
    assert ([c] + rest)[1..] == rest;
  }

  lemma LiteralAppended(h: seq<CodePoint>)
    requires |h| == 4
    ensures Append([0x22, 0x5C, 0x75] + h + [0x22], End) == Next(0x22, Escape(h, Next(0x22, End)))
  {
    hide Append;
    var end: seq<CodePoint> := [0x22];
    var h3, h2 := [h[3]] + end, [h[2]] + ([h[3]] + end);
    var h1, h0 := [h[1]] + h2, [h[0]] + ([h[1]] + h2);
    NothingAppended();
    assert end == [0x22] + [];
    Cons(0x22, []);
    Cons(h[3], end);
    Cons(h[2], h3);
    Cons(h[1], h2);
    Cons(h[0], h1);
    Cons(0x75, h0);
    Cons(0x5C, [0x75] + h0);
    Cons(0x22, [0x5C] + ([0x75] + h0));
    assert [0x22, 0x5C, 0x75] + h + [0x22] == [0x22] + ([0x5C] + ([0x75] + h0));
  }

  lemma NothingAppended()
    ensures Append([], End) == End
  {
  }

  /** `"\u00e9"` is U+00E9. */
  lemma LowerCaseParsed()
    ensures Parse([0x22, 0x5C, 0x75] + [0x30, 0x30, 0x65, 0x39] + [0x22]) == Ok(Str([0xC3, 0xA9]))
  {
    var h: seq<byte> := [0x30, 0x30, 0x65, 0x39];
    LiteralDecoded(h);
    assert FourHex(h, [0, 0, 14, 9]);
    assert Base16([0, 0, 14, 9]) == 0xE9 && Encode(0xE9) == [0xC3, 0xA9];
    hide Parse, DecodeAll, FourHex, Escape, Encode, Base16;
    EscapeParsed([0x22, 0x5C, 0x75] + h + [0x22], h, [0, 0, 14, 9]);
  }
}

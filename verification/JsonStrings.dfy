/** What becomes of a string that is written in quotes and read again. */
module JsonStrings {
  import opened Outcomes
  import opened Encoding
  import opened JsonScanner
  import opened JsonLayout
  import opened JsonShow

  // ---------- reading back, code point by code point ----------

  datatype Taken = Taken(code: int, rest: Codes)

  /** `n` more hex digits, taken from the code points that were written after a `\u`
      escape that came out too short. */
  function TakeHex(n: nat, code: int, s: Codes): (r: Outcome<Taken>)
    ensures r.Ok? ==> Size(r.value.rest) + n == Size(s)
    ensures r.Ok? && EndsWell(s) ==> EndsWell(r.value.rest)
    ensures r.Ok? && n == 0 ==> r.value.code == code
    ensures r.Ok? && n == 1 ==> 0x10 * code <= r.value.code < 0x10 * code + 0x10
    ensures r.Ok? && n == 2 ==> 0x100 * code <= r.value.code < 0x100 * code + 0x100
    ensures r.Err? ==> r == Err(Thrown)
  {
    if n == 0 then Ok(Taken(code, s))
    else if s.Next? && IsHex(s.head) then TakeHex(n - 1, 16 * code + HexValue(s.head), s.tail)
    else Err(Thrown)
  }

  /** Hex digits that `serialize_hex` gives a code point of the basic plane. */
  function DigitCount(c: CodePoint): nat {
    if c < 0x100 then 2 else if c < 0x1000 then 3 else 4
  }

  /** The code read from the escape of `s.head`. */
  function TakeEscape(s: Codes): (r: Outcome<Taken>)
    requires s.Next? && s.head <= 0xFFFF
    ensures r.Ok? ==> Size(r.value.rest) < Size(s)
    ensures r.Ok? ==> 0 <= r.value.code <= 0xFFFF
    ensures r.Ok? && s.head < 0x1000 ==> Size(r.value.rest) + 1 < Size(s)
    ensures r.Ok? && EndsWell(s) ==> EndsWell(r.value.rest)
    ensures r.Err? ==> r == Err(Thrown)
  {
    TakeHex(4 - DigitCount(s.head), s.head, s.tail)
  }

  predicate HasLetter(c: CodePoint) {
    Letter(c) != 0
  }

  /** Written as a single `\u` escape. */
  predicate IsShort(escapeUnicode: bool, c: CodePoint) {
    NeedsHex(escapeUnicode, c) && !HasLetter(c) && c <= 0xFFFF
  }

  /** What `scan_string` makes of the escape of `s.head`; a lead surrogate wants
      another short escape after it. */
  function TakeUnicode(escapeUnicode: bool, s: Codes): (r: Outcome<Taken>)
    requires s.Next? && IsShort(escapeUnicode, s.head)
    ensures r.Ok? ==> 0 <= r.value.code <= 0x10FFFF && Size(r.value.rest) < Size(s)
    ensures r.Ok? && !Survives(escapeUnicode, s.head) ==> Size(r.value.rest) + 1 < Size(s)
    ensures r.Err? ==> r == Err(Thrown)
  {
    var u :- TakeEscape(s);
    if !IsLeadSurrogate(u.code) then Ok(u)
    else if !u.rest.Next? || !IsShort(escapeUnicode, u.rest.head) then Err(Thrown)
    else
      var v :- TakeEscape(u.rest);
      if !IsTrailSurrogate(v.code) then Err(Thrown) else Ok(Taken(DecodeSurrogates(u.code, v.code), v.rest))
  }

  /** The code points the reader gets back from the text of `s`. */
  function ReadPoints(escapeUnicode: bool, s: Codes): (r: Outcome<seq<CodePoint>>)
    ensures r.Err? ==> r == Err(Thrown)
    decreases Size(s)
  {
    if !s.Next? then Ok([])
    else
      var u :- if IsShort(escapeUnicode, s.head) then TakeUnicode(escapeUnicode, s) else Ok(Taken(s.head, s.tail));
      var rest :- ReadPoints(escapeUnicode, u.rest);
      Ok([u.code] + rest)
  }

  // ---------- which strings survive ----------

  /** A code point that comes back as itself whatever surrounds it. */
  predicate Survives(escapeUnicode: bool, c: CodePoint) {
    HasLetter(c) || !NeedsHex(escapeUnicode, c) || (c >= 0x1000 && !IsLeadSurrogate(c))
  }

  predicate AllSurvive(escapeUnicode: bool, s: Codes) {
    s.Next? ==> Survives(escapeUnicode, s.head) && AllSurvive(escapeUnicode, s.tail)
  }

  lemma {:induction false} SurvivorsComeBack(escapeUnicode: bool, s: Codes)
    requires AllSurvive(escapeUnicode, s)
    ensures ReadPoints(escapeUnicode, s) == Ok(Points(s))
  {
    if s.Next? {
      SurvivorsComeBack(escapeUnicode, s.tail);
    }
  }

  /** Reading never gives more code points than were written, and fewer when one of
      them cannot survive: it swallows what follows it. */
  lemma {:induction false} OthersShrink(escapeUnicode: bool, s: Codes)
    requires ReadPoints(escapeUnicode, s).Ok?
    ensures |ReadPoints(escapeUnicode, s).value| <= Size(s)
    ensures !AllSurvive(escapeUnicode, s) ==> |ReadPoints(escapeUnicode, s).value| < Size(s)
    decreases Size(s)
  {
    if s.Next? {
      var rest := if IsShort(escapeUnicode, s.head) then TakeUnicode(escapeUnicode, s).value.rest else s.tail;
      OthersShrink(escapeUnicode, rest);
    }
  }

  lemma {:induction false} PointsSize(s: Codes)
    ensures |Points(s)| == Size(s)
  {
    if s.Next? {
      PointsSize(s.tail);
    }
  }

  /** A string comes back unchanged exactly when every code point of it survives. */
  lemma PointsComeBackIff(escapeUnicode: bool, s: Codes)
    ensures ReadPoints(escapeUnicode, s) == Ok(Points(s)) <==> AllSurvive(escapeUnicode, s)
  {
    PointsSize(s);
    if AllSurvive(escapeUnicode, s) {
      SurvivorsComeBack(escapeUnicode, s);
    } else if ReadPoints(escapeUnicode, s).Ok? {
      OthersShrink(escapeUnicode, s);
    }
  }

  // ---------- the reader on the text of a string ----------

  /** `c` without its last `n` hex digits. */
  function Shifted(c: nat, n: nat): nat {
    if n == 0 then c else Shifted(c, n - 1) / 0x10
  }

  function DigitAt(c: nat, n: nat): byte {
    HexDigit(Shifted(c, n) % 0x10)
  }

  lemma ShiftedRange(c: CodePoint)
    ensures Shifted(c, 0) == c
    ensures c < 0x100 ==> Shifted(c, 1) < 0x10
    ensures c < 0x1000 ==> Shifted(c, 2) < 0x10
    ensures c < 0x10000 ==> Shifted(c, 3) < 0x10
  {
  }

  lemma HexTextDigits(c: CodePoint)
    requires c <= 0xFFFF
    ensures HexText(c) ==
            if c < 0x10 then [DigitAt(c, 0)]
            else if c < 0x100 then [DigitAt(c, 1), DigitAt(c, 0)]
            else if c < 0x1000 then [DigitAt(c, 2), DigitAt(c, 1), DigitAt(c, 0)]
            else [DigitAt(c, 3), DigitAt(c, 2), DigitAt(c, 1), DigitAt(c, 0)]
  {
    var c1, c2 := c / 0x10, c / 0x10 / 0x10;
    assert Shifted(c, 1) == c1 && Shifted(c, 2) == c2 && Shifted(c, 3) == c2 / 0x10;
    if c >= 0x10 {
      assert HexText(c) == HexText(c1) + [DigitAt(c, 0)];
      if c1 >= 0x10 {
        assert HexText(c1) == HexText(c2) + [DigitAt(c, 1)];
      }
    }
  }

  lemma AppendMore(a: CodePoint, cs: seq<CodePoint>, k: Codes)
    ensures Append([a] + cs, k) == Next(a, Append(cs, k))
  {
    assert ([a] + cs)[1..] == cs;
  }

  /** The escape of a code point of the basic plane, digit by digit. */
  lemma HexEscapeShown(c: CodePoint, width: nat, k: Codes)
    requires c <= 0xFFFF && (width == 2 || (width == 4 && c >= 0x1000))
    ensures Append(HexEscape(c, width), k) == Next(0x5C, Next(0x75, ShowDigits(c, DigitCount(c), k)))
  {
    var digits := EscapeDigits(c, width);
    hide HexEscape, DigitAt, DigitCount;
    AppendMore(0x5C, [0x75] + digits, k);
    AppendMore(0x75, digits, k);
    DigitsAppended(c, digits, k);
  }

  lemma EscapeDigits(c: CodePoint, width: nat) returns (digits: seq<byte>)
    requires c <= 0xFFFF && (width == 2 || (width == 4 && c >= 0x1000))
    ensures HexEscape(c, width) == [0x5C] + ([0x75] + digits) && |digits| == DigitCount(c)
    ensures forall i :: 0 <= i < |digits| ==> digits[i] == DigitAt(c, |digits| - 1 - i)
  {
    HexTextDigits(c);
    hide HexText, DigitAt;
    var d0, d1, d2, d3 := DigitAt(c, 0), DigitAt(c, 1), DigitAt(c, 2), DigitAt(c, 3);
    digits := if c < 0x100 then [d1, d0] else if c < 0x1000 then [d2, d1, d0] else [d3, d2, d1, d0];
    assert HexEscape(c, width) == [0x5C] + ([0x75] + digits) by {
      ShiftedRange(c);
    }
  }

  /** The last `n` digits of `c` in front of `k`. */
  function ShowDigits(c: nat, n: nat, k: Codes): Codes {
    if n == 0 then k else Next(DigitAt(c, n - 1), ShowDigits(c, n - 1, k))
  }

  lemma {:induction false} DigitsAppended(c: nat, digits: seq<byte>, k: Codes)
    requires forall i :: 0 <= i < |digits| ==> digits[i] == DigitAt(c, |digits| - 1 - i)
    ensures Append(digits, k) == ShowDigits(c, |digits|, k)
  {
    if digits != [] {
      DigitsAppended(c, digits[1..], k);
    }
  }

  /** Only hex digits start with a hex digit; everything else starts with itself or
      with a backslash. */
  lemma PointShown(escapeUnicode: bool, c: CodePoint, k: Codes)
    ensures ShowPoint(escapeUnicode, c, k).Next?
    ensures IsHex(c) ==> ShowPoint(escapeUnicode, c, k) == Next(c, k)
    ensures !IsHex(c) ==> !IsHex(ShowPoint(escapeUnicode, c, k).head)
    ensures NeedsHex(escapeUnicode, c) || HasLetter(c) ==> ShowPoint(escapeUnicode, c, k).head == 0x5C
  {
    if NeedsHex(escapeUnicode, c) && !HasLetter(c) {
      if c <= 0xFFFF {
        HexEscapeShown(c, 2, k);
      } else {
        HexEscapeShown(EncodeSurrogates(c).0, 4, Append(HexEscape(EncodeSurrogates(c).1, 4), k));
      }
    }
  }

  lemma PointsShown(escapeUnicode: bool, s: Codes, k: Codes)
    ensures ShowPoints(escapeUnicode, s, Next(0x22, k)).Next?
  {
    if s.Next? {
      PointShown(escapeUnicode, s.head, ShowPoints(escapeUnicode, s.tail, Next(0x22, k)));
    }
  }

  /** What the reader has in hand after taking some code points of `s`. */
  ghost predicate AtText(escapeUnicode: bool, v: Codes, s: Codes, k: Codes) {
    v.Next? && v.tail == ShowPoints(escapeUnicode, s, Next(0x22, k))
  }

  ghost predicate SameEscape(escapeUnicode: bool, r: Outcome<Escaped>, t: Outcome<Taken>, k: Codes) {
    if t.Ok? then r.Ok? && r.value.code == t.value.code && AtText(escapeUnicode, r.value.view, t.value.rest, k)
    else r == Err(Thrown)
  }

  lemma {:induction false} HexFromText(escapeUnicode: bool, n: nat, code: int, v: View, s: Codes, k: View)
    requires AtText(escapeUnicode, v, s, k)
    ensures SameEscape(escapeUnicode, ReadHex(n, code, v), TakeHex(n, code, s), k)
  {
    PointsShown(escapeUnicode, s, k);
    if n > 0 && s.Next? {
      var more := ShowPoints(escapeUnicode, s.tail, Next(0x22, k));
      PointShown(escapeUnicode, s.head, more);
      if IsHex(s.head) {
        HexFromText(escapeUnicode, n - 1, 16 * code + HexValue(s.head), v.tail, s.tail, k);
      }
    }
  }

  lemma DigitValue(d: int)
    requires 0 <= d < 16
    ensures IsHex(HexDigit(d)) && HexValue(HexDigit(d)) == d
  {
  }

  /** Reading the last `n` digits of `c` after the ones in front of them. */
  lemma {:induction false} DigitsRead(c: nat, n: nat, more: nat, v: View, k: View)
    requires v.Next? && v.tail == ShowDigits(c, n, k)
    ensures exists q :: ReadHex(n + more, Shifted(c, n), v) == ReadHex(more, c, Next(q, k))
  {
    if n == 0 {
      assert ReadHex(n + more, Shifted(c, n), v) == ReadHex(more, c, Next(v.head, k));
    } else {
      DigitValue(Shifted(c, n - 1) % 0x10);
      DigitsRead(c, n - 1, more, v.tail, k);
    }
  }

  /** A `\u` escape of the basic plane is read as its digits and what completes them. */
  lemma EscapeFromText(escapeUnicode: bool, s: Codes, k: View)
    requires s.Next? && s.head <= 0xFFFF && NeedsHex(escapeUnicode, s.head) && !HasLetter(s.head)
    ensures var v := ShowPoints(escapeUnicode, s, Next(0x22, k));
            && v.Next? && v.head == 0x5C && v.tail.Next? && v.tail.head == 0x75
            && SameEscape(escapeUnicode, ReadHex(4, 0, v.tail), TakeEscape(s), k)
  {
    var c, n := s.head, DigitCount(s.head);
    var more := ShowPoints(escapeUnicode, s.tail, Next(0x22, k));
    PointsShown(escapeUnicode, s.tail, k);
    HexEscapeShown(c, 2, more);
    var v := Next(0x75, ShowDigits(c, n, more));
    DigitsRead(c, n, 4 - n, v, more);
    TopDigits(c);
    var q :| ReadHex(n + (4 - n), Shifted(c, n), v) == ReadHex(4 - n, c, Next(q, more));
    HexFromText(escapeUnicode, 4 - n, c, Next(q, more), s.tail, k);
  }

  lemma TopDigits(c: CodePoint)
    requires c <= 0xFFFF
    ensures Shifted(c, DigitCount(c)) == 0
  {
    ShiftedRange(c);
  }

  // ---------- whole strings ----------

  /** An escaped code point outside the basic plane is read as its surrogate pair. */
  lemma SurrogateRead(code: int, k: View)
    requires 0x1000 <= code <= 0xFFFF
    ensures var v := Append(HexEscape(code, 4), k);
            && v.Next? && v.head == 0x5C && v.tail.Next? && v.tail.head == 0x75
            && exists q :: ReadHex(4, 0, v.tail) == Ok(Escaped(code, Next(q, k)))
  {
    HexEscapeShown(code, 4, k);
    DigitsRead(code, 4, 0, Next(0x75, ShowDigits(code, 4, k)), k);
    TopDigits(code);
  }

  lemma PairRead(lead: int, trail: int, k: View) returns (mid: View, end: View)
    requires IsLeadSurrogate(lead) && IsTrailSurrogate(trail)
    ensures var v := Append(HexEscape(lead, 4), Append(HexEscape(trail, 4), k));
            && v.Next? && v.head == 0x5C && v.tail.Next? && v.tail.head == 0x75
            && ReadHex(4, 0, v.tail) == Ok(Escaped(lead, mid))
            && ReadUnicode(v.tail) == Ok(Escaped(DecodeSurrogates(lead, trail), end))
    ensures end.Next? && end.tail == k
  {
    var second := Append(HexEscape(trail, 4), k);
    SurrogateRead(trail, k);
    SurrogateRead(lead, second);
    var v := Append(HexEscape(lead, 4), second);
    var q :| ReadHex(4, 0, v.tail) == Ok(Escaped(lead, Next(q, second)));
    var p :| ReadHex(4, 0, second.tail) == Ok(Escaped(trail, Next(p, k)));
    mid, end := Next(q, second), Next(p, k);
    SecondRead(v.tail, lead, mid, trail, end);
  }

  lemma SecondRead(s: View, lead: int, mid: View, trail: int, end: View)
    requires IsLeadSurrogate(lead) && IsTrailSurrogate(trail)
    requires ReadHex(4, 0, s) == Ok(Escaped(lead, mid))
    requires mid.Next? && mid.tail.Next? && mid.tail.head == 0x5C && mid.tail.tail.Next? && mid.tail.tail.head == 0x75
    requires ReadHex(4, 0, mid.tail.tail) == Ok(Escaped(trail, end))
    ensures ReadUnicode(s) == Ok(Escaped(DecodeSurrogates(lead, trail), end))
  {
  }

  /** An escaped code point outside the basic plane is read back. */
  lemma SupplementaryRead(c: CodePoint, k: View) returns (lead: int, mid: View, end: View)
    requires c > 0xFFFF
    ensures var v := Append(HexEscape(EncodeSurrogates(c).0, 4), Append(HexEscape(EncodeSurrogates(c).1, 4), k));
            && v.Next? && v.head == 0x5C && v.tail.Next? && v.tail.head == 0x75
            && ReadHex(4, 0, v.tail) == Ok(Escaped(lead, mid))
            && ReadUnicode(v.tail) == Ok(Escaped(c, end))
    ensures !IsTrailSurrogate(lead) && end.Next? && end.tail == k
  {
    var trail: int;
    lead, trail := SplitPoint(c);
    mid, end := PairRead(lead, trail, k);
  }

  lemma SplitPoint(c: CodePoint) returns (lead: int, trail: int)
    requires c > 0xFFFF
    ensures EncodeSurrogates(c) == (lead, trail)
    ensures IsLeadSurrogate(lead) && IsTrailSurrogate(trail) && DecodeSurrogates(lead, trail) == c
  {
    SurrogatesRoundTrip(c, 0xD800, 0xDC00);
    lead, trail := EncodeSurrogates(c).0, EncodeSurrogates(c).1;
  }

  /** After a lead surrogate only another short escape can go on. */
  lemma TrailFromText(escapeUnicode: bool, lead: Escaped, s: Codes, k: View)
    requires AtText(escapeUnicode, lead.view, s, k)
    requires !s.Next? || !IsShort(escapeUnicode, s.head)
    ensures !TrailFollows(lead.view)
  {
    if s.Next? {
      var more := ShowPoints(escapeUnicode, s.tail, Next(0x22, k));
      PointsShown(escapeUnicode, s.tail, k);
      if NeedsHex(escapeUnicode, s.head) && !HasLetter(s.head) {
        var _, _, _ := SupplementaryRead(s.head, more);
      } else {
        PlainShown(escapeUnicode, s.head, more);
      }
    }
  }

  lemma PlainShown(escapeUnicode: bool, c: CodePoint, k: Codes)
    requires HasLetter(c) || !NeedsHex(escapeUnicode, c)
    ensures var v := ShowPoint(escapeUnicode, c, k);
            v.Next? && (v.head == 0x5C ==> v.tail.Next? && v.tail.head != 0x75)
  {
  }

  /** A second escape with a trail surrogate comes next. */
  ghost predicate TrailFollows(s: Codes) {
    && s.Next? && s.tail.Next? && s.tail.head == 0x5C && s.tail.tail.Next? && s.tail.tail.head == 0x75
    && var e := ReadHex(4, 0, s.tail.tail);
       e.Ok? && IsTrailSurrogate(e.value.code)
  }

  lemma UnicodeFromText(escapeUnicode: bool, s: Codes, k: View)
    requires s.Next? && s.head <= 0xFFFF && NeedsHex(escapeUnicode, s.head) && !HasLetter(s.head)
    ensures var v := ShowPoints(escapeUnicode, s, Next(0x22, k));
            && v.Next? && v.head == 0x5C && v.tail.Next? && v.tail.head == 0x75
            && SameEscape(escapeUnicode, ReadUnicode(v.tail), TakeUnicode(escapeUnicode, s), k)
  {
    EscapeFromText(escapeUnicode, s, k);
    var first := TakeEscape(s);
    if first.Ok? && IsLeadSurrogate(first.value.code) {
      var rest := first.value.rest;
      var lead := ReadHex(4, 0, ShowPoints(escapeUnicode, s, Next(0x22, k)).tail).value;
      if !rest.Next? || !IsShort(escapeUnicode, rest.head) {
        TrailFromText(escapeUnicode, lead, rest, k);
      } else {
        EscapeFromText(escapeUnicode, rest, k);
      }
    }
  }

  lemma AppendEncoded(out: seq<byte>, c: CodePoint, cs: seq<CodePoint>)
    ensures out + EncodeAll([c] + cs) == (out + Encode(c)) + EncodeAll(cs)
  {
    assert ([c] + cs)[1..] == cs;
  }

  ghost predicate ReadsAs(r: Outcome<Text>, out: seq<byte>, points: Outcome<seq<CodePoint>>, k: View) {
    if points.Ok? then r == Ok(Text(out + EncodeAll(points.value), k)) else r == Err(Thrown)
  }

  /** The reader on the text of a string: exactly what `ReadPoints` says. */
  lemma {:induction false} StringFromText(escapeUnicode: bool, out: seq<byte>, v: View, s: Codes, k: View)
    requires AtText(escapeUnicode, v, s, k)
    ensures ReadsAs(ScanString(out, v), out, ReadPoints(escapeUnicode, s), k)
    decreases Size(s)
  {
    PointsShown(escapeUnicode, s, k);
    if !s.Next? {
      assert out + EncodeAll([]) == out;
    } else {
      var c, more := s.head, ShowPoints(escapeUnicode, s.tail, Next(0x22, k));
      PointsShown(escapeUnicode, s.tail, k);
      if IsShort(escapeUnicode, c) {
        UnicodeFromText(escapeUnicode, s, k);
        var t := TakeUnicode(escapeUnicode, s);
        if t.Ok? {
          var e := ReadUnicode(v.tail.tail).value;
          StringFromText(escapeUnicode, out + Encode(t.value.code), e.view, t.value.rest, k);
          AppendAll(escapeUnicode, out, t.value.code, t.value.rest);
        }
      } else {
        AppendAll(escapeUnicode, out, c, s.tail);
        var last := PointRead(escapeUnicode, out, v, c, more);
        StringFromText(escapeUnicode, out + Encode(c), last, s.tail, k);
      }
    }
  }

  lemma AppendAll(escapeUnicode: bool, out: seq<byte>, c: CodePoint, s: Codes)
    ensures ReadPoints(escapeUnicode, s).Ok? ==>
              out + EncodeAll([c] + ReadPoints(escapeUnicode, s).value) ==
              (out + Encode(c)) + EncodeAll(ReadPoints(escapeUnicode, s).value)
  {
    if ReadPoints(escapeUnicode, s).Ok? {
      AppendEncoded(out, c, ReadPoints(escapeUnicode, s).value);
    }
  }

  /** A code point that is not a short escape is read by itself. */
  lemma PointRead(escapeUnicode: bool, out: seq<byte>, v: View, c: CodePoint, more: Codes) returns (last: View)
    requires v.Next? && v.tail == ShowPoint(escapeUnicode, c, more) && !IsShort(escapeUnicode, c) && !more.Bad?
    ensures last.Next? && last.tail == more
    ensures ScanString(out, v) == ScanString(out + Encode(c), last)
  {
    if NeedsHex(escapeUnicode, c) && !HasLetter(c) {
      var _, _, end := SupplementaryRead(c, more);
      last := end;
    } else {
      last := if HasLetter(c) then Next(Letter(c), more) else Next(c, more);
      PlainRead(escapeUnicode, out, v, c, last, more);
    }
  }

  lemma PlainRead(escapeUnicode: bool, out: seq<byte>, v: View, c: CodePoint, last: View, more: View)
    requires v.Next? && v.tail == ShowPoint(escapeUnicode, c, more)
    requires HasLetter(c) || !NeedsHex(escapeUnicode, c)
    requires last == if HasLetter(c) then Next(Letter(c), more) else Next(c, more)
    ensures ScanString(out, v) == ScanString(out + Encode(c), last)
  {
    hide ReadUnicode, Encode;
    if HasLetter(c) {
      LetterRead(out, v, c, more);
    }
  }

  lemma LetterStands(c: CodePoint)
    requires HasLetter(c)
    ensures SimpleEscape(Letter(c)) == c && Letter(c) != 0x75 && Encode(c) == [c]
  {
  }

  /** A letter is read as the code point it stands for. */
  lemma LetterRead(out: seq<byte>, v: View, c: CodePoint, more: View)
    requires HasLetter(c) && v.Next? && v.tail == Next(0x5C, Next(Letter(c), more))
    ensures ScanString(out, v) == ScanString(out + Encode(c), Next(Letter(c), more))
  {
    LetterStands(c);
    hide Letter, HasLetter, Encode, SimpleEscape, ReadUnicode;
  }

  // ---------- what is written ----------

  /** Printable characters are written as themselves, but for the quote and the backslash;
      with escapes only ASCII ones are. */
  lemma {:induction false} PlainWritten(escapeUnicode: bool, cs: seq<CodePoint>, k: Codes)
    requires forall i :: 0 <= i < |cs| ==>
               0x20 <= cs[i] && cs[i] != 0x22 && cs[i] != 0x5C && (escapeUnicode ==> cs[i] < 0x7F)
    ensures ShowPoints(escapeUnicode, Append(cs, End), k) == Append(cs, k)
    decreases |cs|
  {
    if cs != [] {
      PlainWritten(escapeUnicode, cs[1..], k);
    }
  }

  /** The characters that have a letter. */
  lemma LettersWritten(escapeUnicode: bool, k: Codes)
    ensures ShowPoint(escapeUnicode, 0x08, k) == Next(0x5C, Next(0x62, k))
    ensures ShowPoint(escapeUnicode, 0x09, k) == Next(0x5C, Next(0x74, k))
    ensures ShowPoint(escapeUnicode, 0x0A, k) == Next(0x5C, Next(0x6E, k))
    ensures ShowPoint(escapeUnicode, 0x0C, k) == Next(0x5C, Next(0x66, k))
    ensures ShowPoint(escapeUnicode, 0x0D, k) == Next(0x5C, Next(0x72, k))
    ensures ShowPoint(escapeUnicode, 0x22, k) == Next(0x5C, Next(0x22, k))
    ensures ShowPoint(escapeUnicode, 0x5C, k) == Next(0x5C, Next(0x5C, k))
  {
  }

  const UPPER_DIGITS: string := "0123456789ABCDEF"

  lemma UpperCase(d: int)
    requires 0 <= d < 16
    ensures HexDigit(d) == UPPER_DIGITS[d] as int
  {
  }

  /** Escapes are written in upper case. */
  lemma {:induction false} HexTextUpper(n: nat)
    ensures HexText(n) != []
    ensures forall i :: 0 <= i < |HexText(n)| ==>
              exists d :: 0 <= d < 16 && HexText(n)[i] == UPPER_DIGITS[d] as int
  {
    UpperCase(n % 16);
    hide HexDigit;
    if n >= 16 {
      HexTextUpper(n / 16);
      assert HexText(n) == HexText(n / 16) + [HexDigit(n % 16)];
    } else {
      UpperCase(n);
      assert HexText(n) == [HexDigit(n)];
    }
  }
}

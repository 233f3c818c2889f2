/** What json_reader computes (json.hpp), as functions of the unread code points.
    A `View` is the code point held in `current_` followed by the unread ones. */
module JsonScanner {
  import opened Outcomes
  import opened Encoding

  type View = s: Codes | !s.Bad? witness End

  datatype Token =
    | Uninitialized
    | LiteralTrue | LiteralFalse | LiteralNull
    | ValueString | ValueInteger | ValueFloat
    | BeginArray | EndArray
    | BeginObject | EndObject
    | NameSeparator | ValueSeparator
    | EndOfInput

  /** `scan` leaves the number it read in `is_negative_` and `number_integer_`. */
  datatype Scanned = Scanned(token: Token, negative: bool, number: int, view: View)

  const INT64_MAX: int := 0x7FFF_FFFF_FFFF_FFFF

  /** `current_`, which is 0 at the end of the input. */
  function Current(s: View): CodePoint {
    if s.Next? then s.head else 0
  }

  predicate IsSpace(c: CodePoint) {
    c == 0x20 || c == 0x09 || c == 0x0A || c == 0x0D
  }

  /** The code point is narrowed to a char first. */
  predicate IsDigit(c: CodePoint) {
    0x30 <= c % 256 <= 0x39
  }

  /** No `/` is directly followed by `*`. */
  predicate NoBlockComment(s: Codes) {
    s.Next? ==> (s.head == 0x2F && s.tail.Next? ==> s.tail.head != 0x2A) && NoBlockComment(s.tail)
  }

  /** `t` is reached from `s` by reading: nothing is put back, and no comment opens
      that did not open before. */
  ghost predicate Reaches(s: Codes, t: Codes) {
    Size(t) <= Size(s) && (NoBlockComment(s) ==> NoBlockComment(t))
  }

  /** `read_next`: at the end of the input nothing changes any more. */
  function Advance(s: View): (r: Outcome<View>)
    ensures r.Ok? ==> (if s.Next? then s.tail == r.value && Size(r.value) < Size(s) else r.value == s)
    ensures r.Ok? ==> Reaches(s, r.value)
    ensures !r.Ok? ==> r == Err(Thrown)
  {
    if s.End? then Ok(s) else if s.tail.Bad? then Err(Thrown) else Ok(s.tail)
  }

  // ---------- white space and comments ----------

  function SkipSpaces(s: View): (r: Outcome<View>)
    ensures (NoBlockComment(s) ==> r != Err(Hangs)) && (r.Ok? ==> Reaches(s, r.value))
    decreases Size(s), 3
  {
    if IsSpace(Current(s)) then
      var t :- Advance(s);
      SkipSpaces(t)
    else if Current(s) == 0x2F then SkipComments(s)
    else Ok(s)
  }

  function SkipComments(s: View): (r: Outcome<View>)
    requires Current(s) == 0x2F
    ensures (NoBlockComment(s) ==> r != Err(Hangs)) && (r.Ok? ==> Reaches(s, r.value))
    decreases Size(s), 2
  {
    var t :- Advance(s);
    if Current(t) == 0x2F then LineComment(t)
    else if Current(t) == 0x2A then BlockComment(t)
    else Err(Thrown)
  }

  function LineComment(s: View): (r: Outcome<View>)
    requires s.Next?
    ensures (NoBlockComment(s) ==> r != Err(Hangs)) && (r.Ok? ==> Reaches(s, r.value))
    decreases Size(s), 1
  {
    var t :- Advance(s);
    if Current(t) == 0x0A || Current(t) == 0x0D then SkipSpaces(t)
    else if t.End? then Ok(t)
    else LineComment(t)
  }

  /** The loop has no end-of-input test: once the input is used up it spins. */
  function BlockComment(s: View): (r: Outcome<View>)
    ensures r.Ok? ==> Reaches(s, r.value)
    decreases Size(s), 1
  {
    if s.End? then Err(Hangs)
    else
      var t :- Advance(s);
      if Current(t) == 0x2A then
        var u :- Advance(t);
        if Current(u) == 0x2F then
          var v :- Advance(u);
          SkipSpaces(v)
        else BlockComment(u)
      else BlockComment(t)
  }

  // ---------- numbers ----------

  function ScanNumber(s: View): (r: Outcome<Scanned>)
    ensures r.Ok? ==> 0 <= r.value.number <= INT64_MAX
    ensures r != Err(Hangs)
    ensures r.Ok? ==> Reaches(s, r.value.view)
    ensures r.Ok? ==> (r.value.token.ValueInteger? || r.value.token.ValueFloat?) && Size(r.value.view) < Size(s)
  {
    var signed := Current(s) == 0x2D || Current(s) == 0x2B;
    var negative := Current(s) == 0x2D;
    var t :- if signed then Advance(s) else Ok(s);
    if Current(t) == 0x30 then
      var u :- Advance(t);
      if Current(u) == 0x2E then ScanFloat(negative, 0, u)
      else if Current(u) == 0x65 || Current(u) == 0x45 then Err(Thrown)
      else Ok(Scanned(ValueInteger, negative, 0, u))
    else if !IsDigit(Current(t)) then Err(Aborted)
    else ScanInteger(negative, Current(t) - 0x30, t)
  }

  /** `n` is the number read up to and including the current digit. */
  function ScanInteger(negative: bool, n: int, s: View): (r: Outcome<Scanned>)
    requires s.Next?
    ensures 0 <= n <= INT64_MAX && r.Ok? ==> 0 <= r.value.number <= INT64_MAX
    ensures r != Err(Hangs)
    ensures r.Ok? ==> Reaches(s, r.value.view)
    ensures r.Ok? ==> (r.value.token.ValueInteger? || r.value.token.ValueFloat?) && Size(r.value.view) < Size(s)
    decreases Size(s)
  {
    var t :- Advance(s);
    var ch := Current(t);
    if ch == 0x2E || ch == 0x65 || ch == 0x45 then ScanFloat(negative, n, t)
    else if !IsDigit(ch) then Ok(Scanned(ValueInteger, negative, n, t))
    else
      var m := n * 10 + (ch - 0x30);
      if m > INT64_MAX then Err(Overflowed) else ScanInteger(negative, m, t)
  }

  /** Only what a float consumes is modelled, not its value. */
  function ScanFloat(negative: bool, n: int, s: View): (r: Outcome<Scanned>)
    requires Current(s) == 0x2E || Current(s) == 0x65 || Current(s) == 0x45
    ensures 0 <= n <= INT64_MAX && r.Ok? ==> 0 <= r.value.number <= INT64_MAX
    ensures r != Err(Hangs)
    ensures r.Ok? ==> Reaches(s, r.value.view)
    ensures r.Ok? ==> (r.value.token.ValueInteger? || r.value.token.ValueFloat?) && Size(r.value.view) < Size(s)
  {
    if Current(s) != 0x2E then ScanExponent(negative, n, s)
    else
      var t :- Advance(s);
      if !IsDigit(Current(t)) then Err(Thrown) else ScanFraction(negative, n, t)
  }

  function ScanFraction(negative: bool, n: int, s: View): (r: Outcome<Scanned>)
    requires s.Next?
    ensures 0 <= n <= INT64_MAX && r.Ok? ==> 0 <= r.value.number <= INT64_MAX
    ensures r != Err(Hangs)
    ensures r.Ok? ==> Reaches(s, r.value.view)
    ensures r.Ok? ==> (r.value.token.ValueInteger? || r.value.token.ValueFloat?) && Size(r.value.view) < Size(s)
    decreases Size(s)
  {
    var t :- Advance(s);
    if Current(t) == 0x65 || Current(t) == 0x45 then ScanExponent(negative, n, t)
    else if IsDigit(Current(t)) then ScanFraction(negative, n, t)
    else Ok(Scanned(ValueFloat, negative, n, t))
  }

  /** The code point after a sign is taken as a digit without a test. */
  function ScanExponent(negative: bool, n: int, s: View): (r: Outcome<Scanned>)
    requires s.Next?
    ensures 0 <= n <= INT64_MAX && r.Ok? ==> 0 <= r.value.number <= INT64_MAX
    ensures r != Err(Hangs)
    ensures r.Ok? ==> Reaches(s, r.value.view)
    ensures r.Ok? ==> (r.value.token.ValueInteger? || r.value.token.ValueFloat?) && Size(r.value.view) < Size(s)
  {
    var t :- Advance(s);
    if !((IsDigit(Current(t)) && Current(t) != 0x30) || Current(t) == 0x2D || Current(t) == 0x2B) then Err(Thrown)
    else
      var u :- if Current(t) == 0x2B || Current(t) == 0x2D then Advance(t) else Ok(t);
      SkipDigits(negative, n, u)
  }

  function SkipDigits(negative: bool, n: int, s: View): (r: Outcome<Scanned>)
    ensures 0 <= n <= INT64_MAX && r.Ok? ==> 0 <= r.value.number <= INT64_MAX
    ensures r != Err(Hangs)
    ensures r.Ok? ==> r.value.token == ValueFloat
    ensures r.Ok? ==> Reaches(s, r.value.view)
    decreases Size(s)
  {
    var t :- Advance(s);
    if IsDigit(Current(t)) then SkipDigits(negative, n, t) else Ok(Scanned(ValueFloat, negative, n, t))
  }

  // ---------- tokens ----------

  /** The literal is compared with code points narrowed to a char. */
  function ScanLiteral(text: seq<CodePoint>, result: Token, s: View): (r: Outcome<Scanned>)
    requires forall k :: 0 <= k < |text| ==> 0 < text[k] < 128
    ensures r.Ok? ==> 0 <= r.value.number <= INT64_MAX
    ensures r != Err(Hangs)
    ensures r.Ok? ==> r.value.token == result && (text != [] ==> Size(r.value.view) < Size(s))
    ensures r.Ok? ==> Reaches(s, r.value.view)
    decreases |text|
  {
    if text == [] then Ok(Scanned(result, false, 0, s))
    else if text[0] != Current(s) % 256 then Err(Thrown)
    else
      var t :- Advance(s);
      ScanLiteral(text[1..], result, t)
  }

  const TRUE_TEXT: seq<CodePoint> := [0x74, 0x72, 0x75, 0x65]
  const FALSE_TEXT: seq<CodePoint> := [0x66, 0x61, 0x6C, 0x73, 0x65]
  const NULL_TEXT: seq<CodePoint> := [0x6E, 0x75, 0x6C, 0x6C]

  function Punctuation(c: CodePoint): Token {
    if c == 0x5B then BeginArray
    else if c == 0x5D then EndArray
    else if c == 0x7B then BeginObject
    else if c == 0x7D then EndObject
    else if c == 0x3A then NameSeparator
    else if c == 0x2C then ValueSeparator
    else Uninitialized
  }

  /** `scan`. A string is only announced: the view stays on its opening quote. */
  function Scan(s: View): (r: Outcome<Scanned>)
    ensures r.Ok? ==> 0 <= r.value.number <= INT64_MAX
    ensures (NoBlockComment(s) ==> r != Err(Hangs)) && (r.Ok? ==> Reaches(s, r.value.view))
    ensures r.Ok? && r.value.token == ValueString ==> Current(r.value.view) == 0x22
    ensures r.Ok? && !r.value.token.ValueString? && !r.value.token.EndOfInput? ==> Size(r.value.view) < Size(s)
  {
    var t :- SkipSpaces(s);
    ScanToken(t)
  }

  function ScanToken(s: View): (r: Outcome<Scanned>)
    ensures r.Ok? ==> 0 <= r.value.number <= INT64_MAX
    ensures r != Err(Hangs)
    ensures r.Ok? ==> Reaches(s, r.value.view)
    ensures r.Ok? && r.value.token == ValueString ==> r.value.view == s && Current(s) == 0x22
    ensures r.Ok? && !r.value.token.ValueString? && !r.value.token.EndOfInput? ==> Size(r.value.view) < Size(s)
  {
    var c := Current(s);
    if c == 0 then Ok(Scanned(EndOfInput, false, 0, s))
    else if Punctuation(c) != Uninitialized then
      var t :- Advance(s);
      Ok(Scanned(Punctuation(c), false, 0, t))
    else if c == 0x74 then ScanLiteral(TRUE_TEXT, LiteralTrue, s)
    else if c == 0x66 then ScanLiteral(FALSE_TEXT, LiteralFalse, s)
    else if c == 0x6E then ScanLiteral(NULL_TEXT, LiteralNull, s)
    else if c == 0x22 then Ok(Scanned(ValueString, false, 0, s))
    else if c == 0x2D || c == 0x2B || 0x30 <= c <= 0x39 then ScanNumber(s)
    else Err(Thrown)
  }

  // ---------- strings ----------

  datatype Text = Text(bytes: seq<byte>, view: View)

  predicate IsHex(c: CodePoint) {
    0x30 <= c <= 0x39 || 0x41 <= c <= 0x46 || 0x61 <= c <= 0x66
  }

  function HexValue(c: CodePoint): (v: int)
    requires IsHex(c)
    ensures 0 <= v < 16
  {
    if c <= 0x39 then c - 0x30 else if c <= 0x46 then c - 0x41 + 10 else c - 0x61 + 10
  }

  datatype Escaped = Escaped(code: int, view: View)

  /** `count` more hex digits after the current code point, added to 16 times `code`. */
  function ReadHex(count: nat, code: int, s: View): (r: Outcome<Escaped>)
    ensures r.Err? ==> r == Err(Thrown)
    ensures r.Ok? && count == 0 ==> r.value.code == code
    ensures r.Ok? && count == 1 ==> 16 * code <= r.value.code < 16 * code + 16
    ensures r.Ok? && count == 2 ==> 0x100 * code <= r.value.code < 0x100 * code + 0x100
    ensures r.Ok? && count == 3 ==> 0x1000 * code <= r.value.code < 0x1000 * code + 0x1000
    ensures r.Ok? && count == 4 ==> 0x10000 * code <= r.value.code < 0x10000 * code + 0x10000
    ensures r.Ok? ==> Reaches(s, r.value.view)
  {
    if count == 0 then Ok(Escaped(code, s))
    else
      var t :- Advance(s);
      if !IsHex(Current(t)) then Err(Thrown) else ReadHex(count - 1, 16 * code + HexValue(Current(t)), t)
  }

  /** The code point of a `\u` escape, with `current_` on the `u`: four hex digits,
      and after a lead surrogate a second escape. */
  function ReadUnicode(s: View): (r: Outcome<Escaped>)
    ensures r != Err(Hangs)
    ensures r.Ok? ==> 0 <= r.value.code <= 0x10FFFF
    ensures r.Ok? ==> Reaches(s, r.value.view)
  {
    var lead :- ReadHex(4, 0, s);
    if !IsLeadSurrogate(lead.code) then Ok(lead)
    else
      var t :- Advance(lead.view);
      if Current(t) != 0x5C then Err(Thrown)
      else
        var u :- Advance(t);
        if Current(u) != 0x75 then Err(Thrown)
        else
          var trail :- ReadHex(4, 0, u);
          if !IsTrailSurrogate(trail.code) then Err(Thrown)
          else Ok(Escaped(DecodeSurrogates(lead.code, trail.code), trail.view))
  }

  /** The one-letter escapes; -1 for any other letter. */
  function SimpleEscape(c: CodePoint): int {
    if c == 0x22 || c == 0x5C || c == 0x2F then c
    else if c == 0x62 then 0x08
    else if c == 0x66 then 0x0C
    else if c == 0x6E then 0x0A
    else if c == 0x72 then 0x0D
    else if c == 0x74 then 0x09
    else -1
  }

  /** What an escape puts into the string, with `current_` on the backslash. */
  function ReadEscape(s: View): (r: Outcome<Text>)
    ensures r != Err(Hangs)
    ensures r.Ok? ==> Reaches(s, r.value.view)
  {
    var t :- Advance(s);
    if Current(t) == 0x75 then
      var u :- ReadUnicode(t);
      Ok(Text(Encode(u.code), u.view))
    else if SimpleEscape(Current(t)) < 0 then Err(Thrown)
    else Ok(Text([SimpleEscape(Current(t))], t))
  }

  /** `scan_string` from the code point before the next one to read; `out` is what
      has been put into the string. */
  function ScanString(out: seq<byte>, s: View): (r: Outcome<Text>)
    ensures r != Err(Hangs)
    ensures r.Ok? ==> Reaches(s, r.value.view)
    decreases Size(s)
  {
    var t :- Advance(s);
    var c := Current(t);
    if t.End? then Err(Thrown)
    else if c == 0x22 then
      var u :- Advance(t);
      Ok(Text(out, u))
    else if c <= 0x1F then Err(Thrown)
    else if c != 0x5C then ScanString(out + Encode(c), t)
    else
      var e :- ReadEscape(t);
      ScanString(out + e.bytes, e.view)
  }
}

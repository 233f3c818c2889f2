/** The text of a tree as json_writer lays it out (json.hpp, configor_serializer.hpp). */
module JsonLayout {
  import opened Encoding
  import opened Json

  /** `json_writer::args` without the precision of floats. */
  datatype Style = Style(indent: int, indentChar: byte, escapeUnicode: bool) {
    predicate Pretty() {
      indent > 0
    }

    function Step(): nat {
      if indent > 0 then indent else 0
    }
  }

  /** The output is kept as the writes made to the stream, the last one outermost. */
  datatype Writes = Nothing | Write(before: Writes, bytes: seq<byte>)

  function Content(w: Writes): seq<byte> {
    match w
    case Nothing => []
    case Write(before, bytes) => Content(before) + bytes
  }

  function Repeat(b: byte, n: nat): (bs: seq<byte>)
    ensures |bs| == n && forall i :: 0 <= i < n ==> bs[i] == b
  {
    seq(n, _ => b)
  }

  /** `depth` steps of indent characters. */
  function Indentation(st: Style, depth: nat): seq<byte> {
    Repeat(st.indentChar, Width(depth, st.Step()))
  }

  /** `depth * step`. */
  function Width(depth: nat, step: nat): (w: nat)
    ensures w == depth * step
  {
    if depth == 0 then 0 else Width(depth - 1, step) + step
  }

  // ---------- scalars ----------

  function Digit(d: int): byte
    requires 0 <= d < 10
  {
    0x30 + d
  }

  function DecimalNat(n: nat): seq<byte> {
    if n < 10 then [Digit(n)] else DecimalNat(n / 10) + [Digit(n % 10)]
  }

  function Decimal(i: int): seq<byte> {
    if i < 0 then [0x2D] + DecimalNat(-i) else DecimalNat(i)
  }

  function HexDigit(d: int): byte
    requires 0 <= d < 16
  {
    if d < 10 then 0x30 + d else 0x41 + d - 10
  }

  /** Upper-case hexadecimal without leading zeros. */
  function HexText(n: nat): seq<byte> {
    if n < 16 then [HexDigit(n)] else HexText(n / 16) + [HexDigit(n % 16)]
  }

  /** `serialize_hex`: padded with zeros to the size in bytes of the integer type, which
      is 2 for the code points of the basic plane and 4 for surrogates. */
  function HexEscape(n: nat, width: nat): seq<byte> {
    var digits := HexText(n);
    [0x5C, 0x75] + Repeat(0x30, if |digits| < width then width - |digits| else 0) + digits
  }

  // ---------- strings ----------

  predicate NeedsHex(escapeUnicode: bool, c: CodePoint) {
    c <= 0x1F || (escapeUnicode && c >= 0x7F)
  }

  /** One code point inside quotes; a supplementary one takes two writes when escaped. */
  function PutPoint(escapeUnicode: bool, w: Writes, c: CodePoint): Writes {
    if c == 0x09 then Write(w, [0x5C, 0x74])
    else if c == 0x0D then Write(w, [0x5C, 0x72])
    else if c == 0x0A then Write(w, [0x5C, 0x6E])
    else if c == 0x08 then Write(w, [0x5C, 0x62])
    else if c == 0x0C then Write(w, [0x5C, 0x66])
    else if c == 0x22 then Write(w, [0x5C, 0x22])
    else if c == 0x5C then Write(w, [0x5C, 0x5C])
    else if !NeedsHex(escapeUnicode, c) then Write(w, Encode(c))
    else if c <= 0xFFFF then Write(w, HexEscape(c, 2))
    else Write(Write(w, HexEscape(EncodeSurrogates(c).0, 4)), HexEscape(EncodeSurrogates(c).1, 4))
  }

  function PutPoints(escapeUnicode: bool, w: Writes, s: Codes): Writes
    decreases s
  {
    if s.Next? then PutPoints(escapeUnicode, PutPoint(escapeUnicode, w, s.head), s.tail) else w
  }

  function PutQuoted(escapeUnicode: bool, w: Writes, s: seq<byte>): Writes {
    Write(PutPoints(escapeUnicode, Write(w, [0x22]), DecodeAll(s)), [0x22])
  }

  // ---------- trees ----------

  predicate HasFloat(t: Json) {
    match t
    case Float => true
    case Arr(vs) => exists v | v in vs :: HasFloat(v)
    case Obj(ms) => exists m | m in ms :: HasFloat(m.value)
    case _ => false
  }

  /** Every string and key can be decoded to its end. */
  predicate Decodable(t: Json) {
    match t
    case Str(s) => EndsWell(DecodeAll(s))
    case Arr(vs) => forall v | v in vs :: Decodable(v)
    case Obj(ms) => forall m | m in ms :: EndsWell(DecodeAll(m.key)) && Decodable(m.value)
    case _ => true
  }

  function PutNewLine(st: Style, w: Writes): Writes {
    if st.Pretty() then Write(w, [0x0A]) else w
  }

  function PutIndent(st: Style, w: Writes, d: nat): Writes {
    if st.Pretty() && st.indentChar != 0 && d > 0 then Write(w, Indentation(st, d)) else w
  }

  /** The single indent character after a colon, written even when it is NUL. */
  function PutOneIndent(st: Style, w: Writes): Writes {
    if st.Pretty() then Write(w, [st.indentChar]) else w
  }

  /** White space in front of a value: a new line if its container has just begun, and
      the indentation unless it follows a member name. */
  function PutLead(st: Style, w: Writes, began: bool, named: bool, d: nat): Writes {
    var line := if began then PutNewLine(st, w) else w;
    if named then line else PutIndent(st, line, d)
  }

  /** The text of `t` at depth `d`, from its first character to its last. */
  function PutBody(st: Style, w: Writes, t: Json, d: nat): Writes
    decreases t, 0
  {
    match t
    case Null => Write(w, [0x6E, 0x75, 0x6C, 0x6C])
    case Bool(b) => Write(w, if b then [0x74, 0x72, 0x75, 0x65] else [0x66, 0x61, 0x6C, 0x73, 0x65])
    case Int(i) => Write(w, Decimal(i))
    case Float => w
    case Str(s) => PutQuoted(st.escapeUnicode, w, s)
    case Arr(vs) => Write(PutIndent(st, PutNewLine(st, PutElements(st, Write(w, [0x5B]), vs, 0, d)), d), [0x5D])
    case Obj(ms) => Write(PutIndent(st, PutNewLine(st, PutMembers(st, Write(w, [0x7B]), ms, 0, d)), d), [0x7D])
  }

  /** The elements from the `i`-th on of an array at depth `d`, each on its own line. */
  function PutElements(st: Style, w: Writes, vs: seq<Json>, i: nat, d: nat): Writes
    requires i <= |vs|
    decreases vs, |vs| - i
  {
    if i == |vs| then w
    else
      var done := PutBody(st, PutLead(st, w, i == 0, false, d + 1), vs[i], d + 1);
      if i == |vs| - 1 then done else PutElements(st, PutNewLine(st, Write(done, [0x2C])), vs, i + 1, d)
  }

  function PutMembers(st: Style, w: Writes, ms: seq<Member>, i: nat, d: nat): Writes
    requires i <= |ms|
    decreases ms, |ms| - i
  {
    if i == |ms| then w
    else
      var done := PutMember(st, PutLead(st, w, i == 0, false, d + 1), ms[i], d + 1);
      if i == |ms| - 1 then done else PutMembers(st, PutNewLine(st, Write(done, [0x2C])), ms, i + 1, d)
  }

  function PutMember(st: Style, w: Writes, m: Member, d: nat): Writes
    decreases m, 0
  {
    PutBody(st, PutOneIndent(st, Write(PutQuoted(st.escapeUnicode, w, m.key), [0x3A])), m.value, d)
  }

  /** What `dump` produces for a tree whose strings can be decoded. */
  function Dumped(st: Style, t: Json): seq<byte> {
    Content(PutBody(st, Nothing, t, 0))
  }
}

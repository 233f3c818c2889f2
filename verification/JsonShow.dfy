/** The code points a dump decodes to, built from the back: `ShowX(.., k)` is the text
    of X followed by `k`. */
module JsonShow {
  import opened Encoding
  import opened Json
  import opened JsonLayout

  // ---------- decoding write by write ----------

  /** `s` with its end replaced by `k`. */
  function Graft(s: Codes, k: Codes): Codes {
    match s
    case Next(c, t) => Next(c, Graft(t, k))
    case End => k
    case Bad => Bad
  }

  /** Bytes that decode to their end decode the same in front of anything. */
  lemma {:induction false} DecodePrefix(bs: seq<byte>, rest: seq<byte>)
    requires EndsWell(DecodeAll(bs))
    ensures DecodeAll(bs + rest) == Graft(DecodeAll(bs), DecodeAll(rest))
    decreases |bs|
  {
    if bs == [] {
      assert bs + rest == rest;
    } else {
      var n := DecodeOne(bs).size;
      assert (bs + rest)[..n] == bs[..n];
      assert DecodeOne(bs + rest) == DecodeOne(bs);
      assert (bs + rest)[n..] == bs[n..] + rest;
      DecodePrefix(bs[n..], rest);
    }
  }

  /** What the writes decode to in front of `k`. */
  function Feed(w: Writes, k: Codes): Codes {
    match w
    case Nothing => k
    case Write(before, bytes) => Feed(before, Graft(DecodeAll(bytes), k))
  }

  /** Writes that cannot be decoded leave a trace, so a text without decoding error
      shows that every write ends properly. */
  predicate AllEndWell(w: Writes) {
    w.Write? ==> AllEndWell(w.before) && EndsWell(DecodeAll(w.bytes))
  }

  lemma {:induction false} GraftEndsWell(s: Codes, k: Codes)
    ensures EndsWell(Graft(s, k)) == (EndsWell(s) && EndsWell(k))
  {
    if s.Next? {
      GraftEndsWell(s.tail, k);
    }
  }

  lemma {:induction false} FeedEndsWell(w: Writes, k: Codes)
    ensures EndsWell(Feed(w, k)) == (AllEndWell(w) && EndsWell(k))
  {
    if w.Write? {
      GraftEndsWell(DecodeAll(w.bytes), k);
      FeedEndsWell(w.before, Graft(DecodeAll(w.bytes), k));
    }
  }

  lemma {:induction false} FeedDecodes(w: Writes, rest: seq<byte>)
    requires AllEndWell(w)
    ensures DecodeAll(Content(w) + rest) == Feed(w, DecodeAll(rest))
  {
    match w
    case Nothing =>
      assert Content(w) + rest == rest;
    case Write(before, bytes) =>
      DecodePrefix(bytes, rest);
      FeedDecodes(before, bytes + rest);
      assert Content(w) + rest == Content(before) + (bytes + rest);
  }

  predicate IsAscii(bs: seq<byte>) {
    forall i :: 0 <= i < |bs| ==> bs[i] < 0x80
  }

  lemma {:induction false} GraftAppend(cs: seq<CodePoint>, k: Codes)
    ensures Graft(Append(cs, End), k) == Append(cs, k)
  {
    if cs != [] {
      GraftAppend(cs[1..], k);
    }
  }

  lemma {:induction false} AsciiEncodes(bs: seq<byte>)
    requires IsAscii(bs)
    ensures EncodeAll(bs) == bs
  {
    if bs != [] {
      AsciiEncodes(bs[1..]);
      assert bs == [bs[0]] + bs[1..];
    }
  }

  /** Writing ASCII text. */
  lemma FeedAscii(w: Writes, bs: seq<byte>, k: Codes)
    requires IsAscii(bs)
    ensures Feed(Write(w, bs), k) == Feed(w, Append(bs, k))
  {
    AsciiEncodes(bs);
    DecodeEncodeAll(bs, []);
    assert bs + [] == bs;
    GraftAppend(bs, k);
  }

  /** Writing one encoded code point. */
  lemma FeedPoint(w: Writes, c: CodePoint, k: Codes)
    ensures Feed(Write(w, Encode(c)), k) == Feed(w, Next(c, k))
  {
    DecodeEncode(c, []);
    assert Encode(c) + [] == Encode(c);
    assert DecodeAll(Encode(c)) == Next(c, End);
    assert Graft(Next(c, End), k) == Next(c, k);
  }

  // ---------- text in front of k ----------

  function ShowNewLine(st: Style, k: Codes): (r: Codes)
    ensures EndsWell(r) == EndsWell(k)
  {
    if st.Pretty() then Next(0x0A, k) else k
  }

  function ShowIndent(st: Style, d: nat, k: Codes): (r: Codes)
    ensures EndsWell(r) == EndsWell(k)
  {
    if st.Pretty() && st.indentChar != 0 && d > 0 then Append(Indentation(st, d), k) else k
  }

  function ShowOneIndent(st: Style, k: Codes): (r: Codes)
    ensures EndsWell(r) == EndsWell(k)
  {
    if st.Pretty() then Next(st.indentChar, k) else k
  }

  function ShowLead(st: Style, began: bool, d: nat, k: Codes): (r: Codes)
    ensures EndsWell(r) == EndsWell(k)
  {
    var line := ShowIndent(st, d, k);
    if began then ShowNewLine(st, line) else line
  }

  function ShowPoint(escapeUnicode: bool, c: CodePoint, k: Codes): (r: Codes)
    ensures EndsWell(r) == EndsWell(k)
  {
    if c == 0x09 then Next(0x5C, Next(0x74, k))
    else if c == 0x0D then Next(0x5C, Next(0x72, k))
    else if c == 0x0A then Next(0x5C, Next(0x6E, k))
    else if c == 0x08 then Next(0x5C, Next(0x62, k))
    else if c == 0x0C then Next(0x5C, Next(0x66, k))
    else if c == 0x22 then Next(0x5C, Next(0x22, k))
    else if c == 0x5C then Next(0x5C, Next(0x5C, k))
    else if !NeedsHex(escapeUnicode, c) then Next(c, k)
    else if c <= 0xFFFF then Append(HexEscape(c, 2), k)
    else Append(HexEscape(EncodeSurrogates(c).0, 4), Append(HexEscape(EncodeSurrogates(c).1, 4), k))
  }

  function ShowPoints(escapeUnicode: bool, s: Codes, k: Codes): (r: Codes)
    ensures EndsWell(r) == EndsWell(k)
    decreases s
  {
    if s.Next? then ShowPoint(escapeUnicode, s.head, ShowPoints(escapeUnicode, s.tail, k)) else k
  }

  function ShowQuoted(escapeUnicode: bool, s: seq<byte>, k: Codes): (r: Codes)
    ensures EndsWell(r) == EndsWell(k)
  {
    Next(0x22, ShowPoints(escapeUnicode, DecodeAll(s), Next(0x22, k)))
  }

  function ShowBody(st: Style, t: Json, d: nat, k: Codes): (r: Codes)
    ensures EndsWell(r) == EndsWell(k)
    decreases t, 0
  {
    match t
    case Null => Append([0x6E, 0x75, 0x6C, 0x6C], k)
    case Bool(b) => Append(if b then [0x74, 0x72, 0x75, 0x65] else [0x66, 0x61, 0x6C, 0x73, 0x65], k)
    case Int(i) => Append(Decimal(i), k)
    case Float => k
    case Str(s) => ShowQuoted(st.escapeUnicode, s, k)
    case Arr(vs) => Next(0x5B, ShowElements(st, vs, 0, d, ShowNewLine(st, ShowIndent(st, d, Next(0x5D, k)))))
    case Obj(ms) => Next(0x7B, ShowMembers(st, ms, 0, d, ShowNewLine(st, ShowIndent(st, d, Next(0x7D, k)))))
  }

  /** What follows an element: the rest of the container, or `k` after the last one. */
  function ShowElements(st: Style, vs: seq<Json>, i: nat, d: nat, k: Codes): (r: Codes)
    requires i <= |vs|
    ensures EndsWell(r) == EndsWell(k)
    decreases vs, |vs| - i
  {
    if i == |vs| then k
    else
      var more := if i == |vs| - 1 then k else Next(0x2C, ShowNewLine(st, ShowElements(st, vs, i + 1, d, k)));
      ShowLead(st, i == 0, d + 1, ShowBody(st, vs[i], d + 1, more))
  }

  function ShowMembers(st: Style, ms: seq<Member>, i: nat, d: nat, k: Codes): (r: Codes)
    requires i <= |ms|
    ensures EndsWell(r) == EndsWell(k)
    decreases ms, |ms| - i
  {
    if i == |ms| then k
    else
      var more := if i == |ms| - 1 then k else Next(0x2C, ShowNewLine(st, ShowMembers(st, ms, i + 1, d, k)));
      ShowLead(st, i == 0, d + 1, ShowMember(st, ms[i], d + 1, more))
  }

  function ShowMember(st: Style, m: Member, d: nat, k: Codes): (r: Codes)
    ensures EndsWell(r) == EndsWell(k)
    decreases m, 0
  {
    ShowQuoted(st.escapeUnicode, m.key, Next(0x3A, ShowOneIndent(st, ShowBody(st, m.value, d, k))))
  }

  // ---------- the writes of a dump decode to its text ----------

  lemma {:induction false} DecimalNatAscii(n: nat)
    ensures IsAscii(DecimalNat(n))
  {
    if n >= 10 {
      DecimalNatAscii(n / 10);
    }
  }

  lemma {:induction false} HexTextAscii(n: nat)
    ensures IsAscii(HexText(n))
  {
    if n >= 16 {
      HexTextAscii(n / 16);
    }
  }

  lemma HexEscapeAscii(n: nat, width: nat)
    ensures IsAscii(HexEscape(n, width))
  {
    HexTextAscii(n);
  }

  lemma AppendTwo(a: CodePoint, b: CodePoint, k: Codes)
    ensures Append([a, b], k) == Next(a, Next(b, k))
  {
    assert [a, b][1..] == [b];
    assert Append([b], k) == Next(b, k);
  }

  lemma FeedTwo(w: Writes, a: byte, b: byte, k: Codes)
    requires a < 0x80 && b < 0x80
    ensures Feed(Write(w, [a, b]), k) == Feed(w, Next(a, Next(b, k)))
  {
    FeedAscii(w, [a, b], k);
    AppendTwo(a, b, k);
  }

  lemma FeedHexPair(w: Writes, lead: nat, trail: nat, k: Codes)
    ensures var both := Write(Write(w, HexEscape(lead, 4)), HexEscape(trail, 4));
            Feed(both, k) == Feed(w, Append(HexEscape(lead, 4), Append(HexEscape(trail, 4), k)))
  {
    HexEscapeAscii(lead, 4);
    HexEscapeAscii(trail, 4);
    FeedAscii(w, HexEscape(lead, 4), Append(HexEscape(trail, 4), k));
    FeedAscii(Write(w, HexEscape(lead, 4)), HexEscape(trail, 4), k);
  }

  /** The letter of a two-character escape, or 0. */
  function Letter(c: CodePoint): byte {
    if c == 0x09 then 0x74 else if c == 0x0D then 0x72 else if c == 0x0A then 0x6E
    else if c == 0x08 then 0x62 else if c == 0x0C then 0x66 else if c == 0x22 || c == 0x5C then c else 0
  }

  lemma FeedShowPoint(escapeUnicode: bool, w: Writes, c: CodePoint, k: Codes)
    ensures Feed(PutPoint(escapeUnicode, w, c), k) == Feed(w, ShowPoint(escapeUnicode, c, k))
  {
    if Letter(c) != 0 {
      FeedTwo(w, 0x5C, Letter(c), k);
    } else if !NeedsHex(escapeUnicode, c) {
      FeedPoint(w, c, k);
    } else if c <= 0xFFFF {
      HexEscapeAscii(c, 2);
      FeedAscii(w, HexEscape(c, 2), k);
    } else {
      FeedHexPair(w, EncodeSurrogates(c).0, EncodeSurrogates(c).1, k);
    }
  }

  lemma {:induction false} FeedShowPoints(escapeUnicode: bool, w: Writes, s: Codes, k: Codes)
    ensures Feed(PutPoints(escapeUnicode, w, s), k) == Feed(w, ShowPoints(escapeUnicode, s, k))
    decreases s
  {
    if s.Next? {
      FeedShowPoint(escapeUnicode, w, s.head, ShowPoints(escapeUnicode, s.tail, k));
      FeedShowPoints(escapeUnicode, PutPoint(escapeUnicode, w, s.head), s.tail, k);
    }
  }

  predicate AsciiIndent(st: Style) {
    st.Pretty() ==> st.indentChar < 0x80
  }

  lemma FeedOne(w: Writes, b: byte, k: Codes)
    requires b < 0x80
    ensures Feed(Write(w, [b]), k) == Feed(w, Next(b, k))
  {
    FeedPoint(w, b, k);
  }

  lemma FeedQuoted(escapeUnicode: bool, w: Writes, s: seq<byte>, k: Codes)
    ensures Feed(PutQuoted(escapeUnicode, w, s), k) == Feed(w, ShowQuoted(escapeUnicode, s, k))
  {
    var open := Write(w, [0x22]);
    var inside := ShowPoints(escapeUnicode, DecodeAll(s), Next(0x22, k));
    FeedOne(w, 0x22, inside);
    FeedShowPoints(escapeUnicode, open, DecodeAll(s), Next(0x22, k));
    FeedOne(PutPoints(escapeUnicode, open, DecodeAll(s)), 0x22, k);
  }

  lemma FeedNewLine(st: Style, w: Writes, k: Codes)
    ensures Feed(PutNewLine(st, w), k) == Feed(w, ShowNewLine(st, k))
  {
    FeedOne(w, 0x0A, k);
  }

  lemma FeedIndent(st: Style, w: Writes, d: nat, k: Codes)
    requires AsciiIndent(st)
    ensures Feed(PutIndent(st, w, d), k) == Feed(w, ShowIndent(st, d, k))
  {
    if st.Pretty() {
      FeedAscii(w, Indentation(st, d), k);
    }
  }

  lemma FeedOneIndent(st: Style, w: Writes, k: Codes)
    requires AsciiIndent(st)
    ensures Feed(PutOneIndent(st, w), k) == Feed(w, ShowOneIndent(st, k))
  {
    if st.Pretty() {
      FeedOne(w, st.indentChar, k);
    }
  }

  lemma FeedLead(st: Style, w: Writes, began: bool, d: nat, k: Codes)
    requires AsciiIndent(st)
    ensures Feed(PutLead(st, w, began, false, d), k) == Feed(w, ShowLead(st, began, d, k))
  {
    var line := if began then PutNewLine(st, w) else w;
    FeedNewLine(st, w, ShowIndent(st, d, k));
    FeedIndent(st, line, d, k);
  }

  lemma FeedClose(st: Style, w: Writes, d: nat, bracket: byte, k: Codes)
    requires AsciiIndent(st) && bracket < 0x80
    ensures var closed := Write(PutIndent(st, PutNewLine(st, w), d), [bracket]);
            Feed(closed, k) == Feed(w, ShowNewLine(st, ShowIndent(st, d, Next(bracket, k))))
  {
    var line := PutNewLine(st, w);
    FeedNewLine(st, w, ShowIndent(st, d, Next(bracket, k)));
    FeedIndent(st, line, d, Next(bracket, k));
    FeedOne(PutIndent(st, line, d), bracket, k);
  }

  /** The writes of a tree decode to its text in front of whatever follows. */
  lemma {:induction false} FeedBody(st: Style, w: Writes, t: Json, d: nat, k: Codes)
    requires AsciiIndent(st)
    ensures Feed(PutBody(st, w, t, d), k) == Feed(w, ShowBody(st, t, d, k))
    decreases t, 0
  {
    match t
    case Null => FeedAscii(w, [0x6E, 0x75, 0x6C, 0x6C], k);
    case Bool(b) => FeedAscii(w, if b then [0x74, 0x72, 0x75, 0x65] else [0x66, 0x61, 0x6C, 0x73, 0x65], k);
    case Int(i) =>
      DecimalNatAscii(if i < 0 then -i else i);
      FeedAscii(w, Decimal(i), k);
    case Float =>
    case Str(s) => FeedQuoted(st.escapeUnicode, w, s, k);
    case Arr(vs) =>
      var close := ShowNewLine(st, ShowIndent(st, d, Next(0x5D, k)));
      FeedOne(w, 0x5B, ShowElements(st, vs, 0, d, close));
      FeedElements(st, Write(w, [0x5B]), vs, 0, d, close);
      FeedClose(st, PutElements(st, Write(w, [0x5B]), vs, 0, d), d, 0x5D, k);
    case Obj(ms) =>
      var close := ShowNewLine(st, ShowIndent(st, d, Next(0x7D, k)));
      FeedOne(w, 0x7B, ShowMembers(st, ms, 0, d, close));
      FeedMembers(st, Write(w, [0x7B]), ms, 0, d, close);
      FeedClose(st, PutMembers(st, Write(w, [0x7B]), ms, 0, d), d, 0x7D, k);
  }

  lemma FeedComma(st: Style, w: Writes, k: Codes)
    ensures Feed(PutNewLine(st, Write(w, [0x2C])), k) == Feed(w, Next(0x2C, ShowNewLine(st, k)))
  {
    FeedOne(w, 0x2C, ShowNewLine(st, k));
    FeedNewLine(st, Write(w, [0x2C]), k);
  }

  lemma {:induction false} FeedElements(st: Style, w: Writes, vs: seq<Json>, i: nat, d: nat, k: Codes)
    requires AsciiIndent(st) && i <= |vs|
    ensures Feed(PutElements(st, w, vs, i, d), k) == Feed(w, ShowElements(st, vs, i, d, k))
    decreases vs, |vs| - i, 0
  {
    hide Feed, ShowBody, PutBody, ShowLead, PutLead, ShowNewLine, PutNewLine;
    var lead := PutLead(st, w, i == 0, false, d + 1);
    if i == |vs| {
    } else if i == |vs| - 1 {
      FeedLead(st, w, i == 0, d + 1, ShowBody(st, vs[i], d + 1, k));
      FeedBody(st, lead, vs[i], d + 1, k);
    } else {
      var rest := Next(0x2C, ShowNewLine(st, ShowElements(st, vs, i + 1, d, k)));
      FeedLead(st, w, i == 0, d + 1, ShowBody(st, vs[i], d + 1, rest));
      FeedBody(st, lead, vs[i], d + 1, rest);
      FeedMoreElements(st, PutBody(st, lead, vs[i], d + 1), vs, i + 1, d, k);
    }
  }

  lemma {:induction false} FeedMoreElements(st: Style, done: Writes, vs: seq<Json>, i: nat, d: nat, k: Codes)
    requires AsciiIndent(st) && i < |vs|
    ensures var all := PutElements(st, PutNewLine(st, Write(done, [0x2C])), vs, i, d);
            Feed(all, k) == Feed(done, Next(0x2C, ShowNewLine(st, ShowElements(st, vs, i, d, k))))
    decreases vs, |vs| - i, 1
  {
    FeedComma(st, done, ShowElements(st, vs, i, d, k));
    FeedElements(st, PutNewLine(st, Write(done, [0x2C])), vs, i, d, k);
  }

  lemma {:induction false} FeedMembers(st: Style, w: Writes, ms: seq<Member>, i: nat, d: nat, k: Codes)
    requires AsciiIndent(st) && i <= |ms|
    ensures Feed(PutMembers(st, w, ms, i, d), k) == Feed(w, ShowMembers(st, ms, i, d, k))
    decreases ms, |ms| - i, 0
  {
    hide Feed, ShowMember, PutMember, ShowLead, PutLead, ShowNewLine, PutNewLine;
    if i == |ms| {
    } else if i == |ms| - 1 {
      FeedLedMember(st, w, ms[i], i == 0, d + 1, k);
    } else {
      var done := PutMember(st, PutLead(st, w, i == 0, false, d + 1), ms[i], d + 1);
      FeedLedMember(st, w, ms[i], i == 0, d + 1, Next(0x2C, ShowNewLine(st, ShowMembers(st, ms, i + 1, d, k))));
      FeedMoreMembers(st, done, ms, i + 1, d, k);
    }
  }

  lemma {:induction false} FeedMoreMembers(st: Style, done: Writes, ms: seq<Member>, i: nat, d: nat, k: Codes)
    requires AsciiIndent(st) && i < |ms|
    ensures var all := PutMembers(st, PutNewLine(st, Write(done, [0x2C])), ms, i, d);
            Feed(all, k) == Feed(done, Next(0x2C, ShowNewLine(st, ShowMembers(st, ms, i, d, k))))
    decreases ms, |ms| - i, 1
  {
    FeedComma(st, done, ShowMembers(st, ms, i, d, k));
    FeedMembers(st, PutNewLine(st, Write(done, [0x2C])), ms, i, d, k);
  }

  lemma {:induction false} FeedLedMember(st: Style, w: Writes, m: Member, began: bool, d: nat, k: Codes)
    requires AsciiIndent(st)
    ensures var done := PutMember(st, PutLead(st, w, began, false, d), m, d);
            Feed(done, k) == Feed(w, ShowLead(st, began, d, ShowMember(st, m, d, k)))
    decreases m, 1
  {
    FeedLead(st, w, began, d, ShowMember(st, m, d, k));
    FeedMember(st, PutLead(st, w, began, false, d), m, d, k);
  }

  lemma {:induction false} FeedMember(st: Style, w: Writes, m: Member, d: nat, k: Codes)
    requires AsciiIndent(st)
    ensures Feed(PutMember(st, w, m, d), k) == Feed(w, ShowMember(st, m, d, k))
    decreases m, 0
  {
    var body := ShowBody(st, m.value, d, k);
    var key := PutQuoted(st.escapeUnicode, w, m.key);
    FeedQuoted(st.escapeUnicode, w, m.key, Next(0x3A, ShowOneIndent(st, body)));
    FeedOne(key, 0x3A, ShowOneIndent(st, body));
    FeedOneIndent(st, Write(key, [0x3A]), body);
    FeedBody(st, PutOneIndent(st, Write(key, [0x3A])), m.value, d, k);
  }

  /** A dump decodes to the text of its tree and nothing else. */
  lemma DumpedDecodes(st: Style, t: Json)
    requires AsciiIndent(st)
    ensures DecodeAll(Dumped(st, t)) == ShowBody(st, t, 0, End)
  {
    var w := PutBody(st, Nothing, t, 0);
    FeedBody(st, Nothing, t, 0, End);
    FeedEndsWell(w, End);
    FeedDecodes(w, []);
    assert Content(w) + [] == Content(w);
  }
}

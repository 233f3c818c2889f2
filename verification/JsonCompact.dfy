/** How the layouts of one tree compare: the white space of a pretty dump, and the
    bytes of an escaped one. */
module JsonCompact {
  import opened Encoding
  import opened Json
  import opened JsonScanner
  import opened JsonLayout
  import opened JsonShow
  import opened JsonStrings
  import opened JsonRoundTrip

  // ---------- white space outside strings ----------

  /** `s` without the white space outside string literals. */
  function Strip(s: Codes): Codes {
    if !s.Next? then s
    else if IsSpace(s.head) then Strip(s.tail)
    else if s.head == 0x22 then Next(0x22, StripInside(s.tail))
    else Next(s.head, Strip(s.tail))
  }

  /** The same from inside a string literal. */
  function StripInside(s: Codes): Codes {
    if !s.Next? then s
    else if s.head == 0x22 then Next(0x22, Strip(s.tail))
    else if s.head == 0x5C && s.tail.Next? then Next(0x5C, Next(s.tail.head, StripInside(s.tail.tail)))
    else Next(s.head, StripInside(s.tail))
  }

  function Compact(st: Style): Style {
    st.(indent := 0)
  }

  lemma {:induction false} StripText(bs: seq<byte>, k: Codes)
    requires forall i :: 0 <= i < |bs| ==> !IsSpace(bs[i]) && bs[i] != 0x22
    ensures Strip(Append(bs, k)) == Append(bs, Strip(k))
  {
    if bs != [] {
      StripText(bs[1..], k);
    }
  }

  lemma {:induction false} StripSpaces(bs: seq<byte>, k: Codes)
    requires forall i :: 0 <= i < |bs| ==> IsSpace(bs[i])
    ensures Strip(Append(bs, k)) == Strip(k)
  {
    if bs != [] {
      StripSpaces(bs[1..], k);
    }
  }

  lemma StripLayout(st: Style, began: bool, d: nat, k: Codes)
    requires SpaceIndent(st)
    ensures Strip(ShowIndent(st, d, k)) == Strip(k)
    ensures Strip(ShowNewLine(st, k)) == Strip(k)
    ensures Strip(ShowOneIndent(st, k)) == Strip(k)
    ensures Strip(ShowLead(st, began, d, k)) == Strip(k)
  {
    if st.Pretty() {
      StripSpaces(Indentation(st, d), k);
    }
  }

  lemma {:induction false} StripDigits(c: nat, n: nat, k: Codes)
    ensures StripInside(ShowDigits(c, n, k)) == ShowDigits(c, n, StripInside(k))
  {
    if n > 0 {
      StripDigits(c, n - 1, k);
    }
  }

  lemma StripHex(c: CodePoint, width: nat, k: Codes)
    requires c <= 0xFFFF && (width == 2 || (width == 4 && c >= 0x1000))
    ensures StripInside(Append(HexEscape(c, width), k)) == Append(HexEscape(c, width), StripInside(k))
  {
    hide HexEscape, DigitCount;
    HexEscapeShown(c, width, k);
    HexEscapeShown(c, width, StripInside(k));
    StripDigits(c, DigitCount(c), k);
  }

  lemma StripPoint(escapeUnicode: bool, c: CodePoint, k: Codes)
    ensures StripInside(ShowPoint(escapeUnicode, c, k)) == ShowPoint(escapeUnicode, c, StripInside(k))
  {
    hide HexEscape;
    if NeedsHex(escapeUnicode, c) && Letter(c) == 0 {
      if c <= 0xFFFF {
        StripHex(c, 2, k);
      } else {
        var lead, trail := SplitPoint(c);
        StripHex(lead, 4, Append(HexEscape(trail, 4), k));
        StripHex(trail, 4, k);
      }
    }
  }

  lemma {:induction false} StripPoints(escapeUnicode: bool, s: Codes, k: Codes)
    ensures StripInside(ShowPoints(escapeUnicode, s, k)) == ShowPoints(escapeUnicode, s, StripInside(k))
    decreases s
  {
    hide ShowPoint;
    if s.Next? {
      StripPoint(escapeUnicode, s.head, ShowPoints(escapeUnicode, s.tail, k));
      StripPoints(escapeUnicode, s.tail, k);
    }
  }

  lemma StripQuoted(escapeUnicode: bool, s: seq<byte>, k: Codes)
    ensures Strip(ShowQuoted(escapeUnicode, s, k)) == ShowQuoted(escapeUnicode, s, Strip(k))
  {
    hide ShowPoints;
    StripPoints(escapeUnicode, DecodeAll(s), Next(0x22, k));
  }

  lemma {:induction false} DecimalNatPlain(n: nat)
    ensures forall i :: 0 <= i < |DecimalNat(n)| ==> 0x30 <= DecimalNat(n)[i] <= 0x39
  {
    if n >= 10 {
      DecimalNatPlain(n / 10);
    }
  }

  lemma StripMark(b: byte, k: Codes)
    requires !IsSpace(b) && b != 0x22
    ensures Strip(Next(b, k)) == Next(b, Strip(k))
  {
  }

  lemma {:induction false} StripBody(st: Style, t: Json, d: nat, k: Codes)
    requires SpaceIndent(st)
    ensures Strip(ShowBody(st, t, d, k)) == ShowBody(Compact(st), t, d, Strip(k))
    decreases t, 0
  {
    hide Strip, Decimal, ShowElements, ShowMembers, ShowQuoted, ShowNewLine, ShowIndent;
    match t
    case Null => StripText([0x6E, 0x75, 0x6C, 0x6C], k);
    case Bool(b) => StripText(if b then [0x74, 0x72, 0x75, 0x65] else [0x66, 0x61, 0x6C, 0x73, 0x65], k);
    case Int(i) => StripDecimal(i, k);
    case Float =>
    case Str(s) => StripQuoted(st.escapeUnicode, s, k);
    case Arr(vs) =>
      StripElements(st, vs, 0, d, Close(st, d, 0x5D, k));
      StripMark(0x5B, ShowElements(st, vs, 0, d, Close(st, d, 0x5D, k)));
      StripClose(st, d, 0x5D, k);
    case Obj(ms) =>
      StripMembers(st, ms, 0, d, Close(st, d, 0x7D, k));
      StripMark(0x7B, ShowMembers(st, ms, 0, d, Close(st, d, 0x7D, k)));
      StripClose(st, d, 0x7D, k);
  }

  lemma StripDecimal(i: int, k: Codes)
    ensures Strip(Append(Decimal(i), k)) == Append(Decimal(i), Strip(k))
  {
    DecimalNatPlain(if i < 0 then -i else i);
    StripText(Decimal(i), k);
  }

  lemma StripClose(st: Style, d: nat, bracket: byte, k: Codes)
    requires SpaceIndent(st) && !IsSpace(bracket) && bracket != 0x22
    ensures Strip(Close(st, d, bracket, k)) == Close(Compact(st), d, bracket, Strip(k))
  {
    StripLayout(st, false, d, ShowIndent(st, d, Next(bracket, k)));
    StripLayout(st, false, d, Next(bracket, k));
    StripMark(bracket, k);
  }

  lemma {:induction false} StripElements(st: Style, vs: seq<Json>, i: nat, d: nat, k: Codes)
    requires SpaceIndent(st) && i <= |vs|
    ensures Strip(ShowElements(st, vs, i, d, k)) == ShowElements(Compact(st), vs, i, d, Strip(k))
    decreases vs, |vs| - i
  {
    hide Strip, ShowBody;
    if i < |vs| {
      var rest := if i == |vs| - 1 then k else Next(0x2C, ShowNewLine(st, ShowElements(st, vs, i + 1, d, k)));
      StripLayout(st, i == 0, d + 1, ShowBody(st, vs[i], d + 1, rest));
      StripBody(st, vs[i], d + 1, rest);
      if i < |vs| - 1 {
        StripMark(0x2C, ShowNewLine(st, ShowElements(st, vs, i + 1, d, k)));
        StripLayout(st, false, d, ShowElements(st, vs, i + 1, d, k));
        StripElements(st, vs, i + 1, d, k);
      }
    }
  }

  lemma {:induction false} StripMembers(st: Style, ms: seq<Member>, i: nat, d: nat, k: Codes)
    requires SpaceIndent(st) && i <= |ms|
    ensures Strip(ShowMembers(st, ms, i, d, k)) == ShowMembers(Compact(st), ms, i, d, Strip(k))
    decreases ms, |ms| - i
  {
    hide Strip, ShowMember;
    if i < |ms| {
      var rest := if i == |ms| - 1 then k else Next(0x2C, ShowNewLine(st, ShowMembers(st, ms, i + 1, d, k)));
      StripLayout(st, i == 0, d + 1, ShowMember(st, ms[i], d + 1, rest));
      StripMember(st, ms[i], d + 1, rest);
      if i < |ms| - 1 {
        StripMark(0x2C, ShowNewLine(st, ShowMembers(st, ms, i + 1, d, k)));
        StripLayout(st, false, d, ShowMembers(st, ms, i + 1, d, k));
        StripMembers(st, ms, i + 1, d, k);
      }
    }
  }

  lemma {:induction false} StripMember(st: Style, m: Member, d: nat, k: Codes)
    requires SpaceIndent(st)
    ensures Strip(ShowMember(st, m, d, k)) == ShowMember(Compact(st), m, d, Strip(k))
    decreases m, 0
  {
    hide Strip, ShowBody, ShowQuoted;
    var body := ShowBody(st, m.value, d, k);
    StripQuoted(st.escapeUnicode, m.key, Next(0x3A, ShowOneIndent(st, body)));
    StripMark(0x3A, ShowOneIndent(st, body));
    StripLayout(st, false, d, body);
    StripBody(st, m.value, d, k);
  }

  /** Deleting the white space outside string literals from a dump indented with white
      space gives the compact dump of the same tree. */
  lemma PrettyIsCompact(st: Style, t: Json)
    requires SpaceIndent(st)
    ensures Strip(DecodeAll(Dumped(st, t))) == DecodeAll(Dumped(Compact(st), t))
  {
    hide Dumped, ShowBody;
    DumpedDecodes(st, t);
    DumpedDecodes(Compact(st), t);
    StripBody(st, t, 0, End);
  }

  // ---------- escaped dumps ----------

  predicate AsciiWrites(w: Writes) {
    w.Write? ==> AsciiWrites(w.before) && IsAscii(w.bytes)
  }

  lemma {:induction false} AsciiContent(w: Writes)
    requires AsciiWrites(w)
    ensures IsAscii(Content(w))
  {
    if w.Write? {
      AsciiContent(w.before);
    }
  }

  lemma AsciiPoint(w: Writes, c: CodePoint)
    requires AsciiWrites(w)
    ensures AsciiWrites(PutPoint(true, w, c))
  {
    hide HexEscape;
    HexEscapeAscii(c, 2);
    if c > 0xFFFF {
      var lead, trail := SplitPoint(c);
      HexEscapeAscii(lead, 4);
      HexEscapeAscii(trail, 4);
    }
  }

  lemma {:induction false} AsciiPoints(w: Writes, s: Codes)
    requires AsciiWrites(w)
    ensures AsciiWrites(PutPoints(true, w, s))
    decreases s
  {
    hide PutPoint;
    if s.Next? {
      AsciiPoint(w, s.head);
      AsciiPoints(PutPoint(true, w, s.head), s.tail);
    }
  }

  lemma AsciiQuoted(w: Writes, s: seq<byte>)
    requires AsciiWrites(w)
    ensures AsciiWrites(PutQuoted(true, w, s))
  {
    hide PutPoints;
    AsciiPoints(Write(w, [0x22]), DecodeAll(s));
  }

  lemma AsciiLayout(st: Style, w: Writes, began: bool, d: nat)
    requires AsciiIndent(st) && AsciiWrites(w)
    ensures AsciiWrites(PutIndent(st, w, d)) && AsciiWrites(PutNewLine(st, w)) && AsciiWrites(PutOneIndent(st, w))
    ensures AsciiWrites(PutLead(st, w, began, false, d))
  {
  }

  lemma {:induction false} AsciiBody(st: Style, w: Writes, t: Json, d: nat)
    requires st.escapeUnicode && AsciiIndent(st) && AsciiWrites(w)
    ensures AsciiWrites(PutBody(st, w, t, d))
    decreases t, 0
  {
    hide PutElements, PutMembers, PutQuoted, PutIndent, PutNewLine;
    match t
    case Int(i) => DecimalNatAscii(if i < 0 then -i else i);
    case Str(s) => AsciiQuoted(w, s);
    case Arr(vs) =>
      AsciiElements(st, Write(w, [0x5B]), vs, 0, d);
      AsciiClose(st, PutElements(st, Write(w, [0x5B]), vs, 0, d), d);
    case Obj(ms) =>
      AsciiMembers(st, Write(w, [0x7B]), ms, 0, d);
      AsciiClose(st, PutMembers(st, Write(w, [0x7B]), ms, 0, d), d);
    case _ =>
  }

  lemma AsciiClose(st: Style, w: Writes, d: nat)
    requires AsciiIndent(st) && AsciiWrites(w)
    ensures AsciiWrites(PutIndent(st, PutNewLine(st, w), d))
  {
    AsciiLayout(st, w, false, d);
    AsciiLayout(st, PutNewLine(st, w), false, d);
  }

  lemma {:induction false} AsciiElements(st: Style, w: Writes, vs: seq<Json>, i: nat, d: nat)
    requires st.escapeUnicode && AsciiIndent(st) && AsciiWrites(w) && i <= |vs|
    ensures AsciiWrites(PutElements(st, w, vs, i, d))
    decreases vs, |vs| - i
  {
    hide PutBody, PutLead, PutNewLine;
    if i < |vs| {
      var lead := PutLead(st, w, i == 0, false, d + 1);
      AsciiLayout(st, w, i == 0, d + 1);
      AsciiBody(st, lead, vs[i], d + 1);
      if i < |vs| - 1 {
        var done := Write(PutBody(st, lead, vs[i], d + 1), [0x2C]);
        AsciiLayout(st, done, false, d);
        AsciiElements(st, PutNewLine(st, done), vs, i + 1, d);
      }
    }
  }

  lemma {:induction false} AsciiMembers(st: Style, w: Writes, ms: seq<Member>, i: nat, d: nat)
    requires st.escapeUnicode && AsciiIndent(st) && AsciiWrites(w) && i <= |ms|
    ensures AsciiWrites(PutMembers(st, w, ms, i, d))
    decreases ms, |ms| - i
  {
    hide PutMember, PutLead, PutNewLine;
    if i < |ms| {
      var lead := PutLead(st, w, i == 0, false, d + 1);
      AsciiLayout(st, w, i == 0, d + 1);
      AsciiMember(st, lead, ms[i], d + 1);
      if i < |ms| - 1 {
        var done := Write(PutMember(st, lead, ms[i], d + 1), [0x2C]);
        AsciiLayout(st, done, false, d);
        AsciiMembers(st, PutNewLine(st, done), ms, i + 1, d);
      }
    }
  }

  lemma {:induction false} AsciiMember(st: Style, w: Writes, m: Member, d: nat)
    requires st.escapeUnicode && AsciiIndent(st) && AsciiWrites(w)
    ensures AsciiWrites(PutMember(st, w, m, d))
    decreases m, 0
  {
    hide PutBody, PutQuoted, PutOneIndent;
    AsciiQuoted(w, m.key);
    var colon := Write(PutQuoted(st.escapeUnicode, w, m.key), [0x3A]);
    AsciiLayout(st, colon, false, d);
    AsciiBody(st, PutOneIndent(st, colon), m.value, d);
  }

  /** With `escape_unicode` every byte of a dump is ASCII. */
  lemma EscapedIsAscii(st: Style, t: Json)
    requires st.escapeUnicode && AsciiIndent(st)
    ensures IsAscii(Dumped(st, t))
  {
    AsciiBody(st, Nothing, t, 0);
    AsciiContent(PutBody(st, Nothing, t, 0));
  }
}

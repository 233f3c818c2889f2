/** The white space of a pretty dump, put into the compact dump by a printer that sees
    nothing but its characters. */
module JsonPretty {
  import opened Encoding
  import opened Json
  import opened JsonLayout
  import opened JsonShow
  import opened JsonStrings
  import opened JsonCompact

  function Times(c: CodePoint, n: nat, k: Codes): Codes
    decreases n
  {
    if n == 0 then k else Next(c, Times(c, n - 1, k))
  }

  /** A new line at depth `d`: `indent` characters for each open bracket. */
  function Line(st: Style, d: nat, k: Codes): Codes {
    if st.indent <= 0 then k
    else Next(0x0A, if st.indentChar == 0 then k else Times(st.indentChar, d * st.indent, k))
  }

  predicate Opens(c: CodePoint) {
    c == 0x5B || c == 0x7B
  }

  predicate Closes(c: CodePoint) {
    c == 0x5D || c == 0x7D
  }

  /** `s` with a new line behind each opening bracket and comma and in front of each closing
      bracket, and one indent character behind each colon; `d` brackets are open, the
      last of them just now if `began`. */
  function Pretty(st: Style, s: Codes, d: nat, began: bool): Codes
    decreases s
  {
    if !s.Next? then s
    else if Closes(s.head) then
      var less := if d == 0 then 0 else d - 1;
      Line(st, less, Next(s.head, Pretty(st, s.tail, less, false)))
    else
      var rest :=
        if Opens(s.head) then Next(s.head, Pretty(st, s.tail, d + 1, true))
        else if s.head == 0x2C then Next(0x2C, Line(st, d, Pretty(st, s.tail, d, false)))
        else if s.head == 0x3A then
          Next(0x3A, if st.indent <= 0 then Pretty(st, s.tail, d, false)
                     else Next(st.indentChar, Pretty(st, s.tail, d, false)))
        else if s.head == 0x22 then Next(0x22, PrettyInside(st, s.tail, d))
        else Next(s.head, Pretty(st, s.tail, d, false));
      if began then Line(st, d, rest) else rest
  }

  /** Inside a string literal nothing is added. */
  function PrettyInside(st: Style, s: Codes, d: nat): Codes
    decreases s
  {
    if !s.Next? then s
    else if s.head == 0x22 then Next(0x22, Pretty(st, s.tail, d, false))
    else if s.head == 0x5C && s.tail.Next? then Next(0x5C, Next(s.tail.head, PrettyInside(st, s.tail.tail, d)))
    else Next(s.head, PrettyInside(st, s.tail, d))
  }

  // ---------- the pieces ----------

  lemma {:induction false} TimesAppended(c: byte, n: nat, k: Codes)
    ensures Append(Repeat(c, n), k) == Times(c, n, k)
  {
    if n > 0 {
      TimesAppended(c, n - 1, k);
      assert Repeat(c, n)[1..] == Repeat(c, n - 1);
    }
  }

  lemma LineShown(st: Style, d: nat, k: Codes)
    ensures Line(st, d, k) == ShowNewLine(st, ShowIndent(st, d, k))
  {
    if st.Pretty() && st.indentChar != 0 {
      TimesAppended(st.indentChar, Width(d, st.Step()), k);
    }
  }

  predicate Ordinary(c: CodePoint) {
    !Opens(c) && !Closes(c) && c != 0x2C && c != 0x3A && c != 0x22
  }

  lemma {:induction false} PrettyText(st: Style, bs: seq<byte>, d: nat, k: Codes)
    requires forall i :: 0 <= i < |bs| ==> Ordinary(bs[i])
    ensures Pretty(st, Append(bs, k), d, false) == Append(bs, Pretty(st, k, d, false))
  {
    if bs != [] {
      PrettyText(st, bs[1..], d, k);
    }
  }

  /** Just behind an opening bracket the first value starts on a line of its own. */
  lemma PrettyBegan(st: Style, s: Codes, d: nat)
    requires s.Next? && !Closes(s.head)
    ensures Pretty(st, s, d, true) == Line(st, d, Pretty(st, s, d, false))
  {
    hide Line;
  }

  lemma {:induction false} PrettyDigits(st: Style, c: nat, n: nat, d: nat, k: Codes)
    ensures PrettyInside(st, ShowDigits(c, n, k), d) == ShowDigits(c, n, PrettyInside(st, k, d))
    decreases n
  {
    hide Pretty;
    if n > 0 {
      PrettyDigits(st, c, n - 1, d, k);
    }
  }

  lemma PrettyHex(st: Style, c: CodePoint, width: nat, d: nat, k: Codes)
    requires c <= 0xFFFF && (width == 2 || (width == 4 && c >= 0x1000))
    ensures PrettyInside(st, Append(HexEscape(c, width), k), d) == Append(HexEscape(c, width), PrettyInside(st, k, d))
  {
    hide HexEscape, DigitCount, Pretty;
    HexEscapeShown(c, width, k);
    HexEscapeShown(c, width, PrettyInside(st, k, d));
    PrettyDigits(st, c, DigitCount(c), d, k);
  }

  lemma PrettyPoint(st: Style, c: CodePoint, d: nat, k: Codes)
    ensures PrettyInside(st, ShowPoint(st.escapeUnicode, c, k), d) ==
            ShowPoint(st.escapeUnicode, c, PrettyInside(st, k, d))
  {
    hide HexEscape, Pretty;
    if NeedsHex(st.escapeUnicode, c) && Letter(c) == 0 {
      hide PrettyInside;
      if c <= 0xFFFF {
        PrettyHex(st, c, 2, d, k);
      } else {
        var lead, trail := SplitPoint(c);
        PrettyHex(st, lead, 4, d, Append(HexEscape(trail, 4), k));
        PrettyHex(st, trail, 4, d, k);
      }
    }
  }

  lemma {:induction false} PrettyPoints(st: Style, s: Codes, d: nat, k: Codes)
    ensures PrettyInside(st, ShowPoints(st.escapeUnicode, s, k), d) ==
            ShowPoints(st.escapeUnicode, s, PrettyInside(st, k, d))
    decreases s
  {
    hide ShowPoint, PrettyInside;
    if s.Next? {
      PrettyPoint(st, s.head, d, ShowPoints(st.escapeUnicode, s.tail, k));
      PrettyPoints(st, s.tail, d, k);
    }
  }

  lemma PrettyQuoted(st: Style, s: seq<byte>, d: nat, k: Codes)
    ensures Pretty(st, ShowQuoted(st.escapeUnicode, s, k), d, false) ==
            ShowQuoted(st.escapeUnicode, s, Pretty(st, k, d, false))
  {
    hide ShowPoints, Line;
    PrettyPoints(st, DecodeAll(s), d, Next(0x22, k));
  }

  // ---------- trees ----------

  /** A value never starts with a closing bracket. */
  lemma BodyHead(st: Style, t: Json, d: nat, k: Codes)
    requires !t.Float?
    ensures ShowBody(st, t, d, k).Next? && !Closes(ShowBody(st, t, d, k).head)
  {
    match t
    case Int(i) =>
      DecimalNatPlain(if i < 0 then -i else i);
      assert Decimal(i) != [] && Append(Decimal(i), k).head == Decimal(i)[0];
    case _ =>
  }

  lemma NotFloat(t: Json)
    requires !HasFloat(t)
    ensures !t.Float?
  {
  }

  lemma PrettyMark(st: Style, b: byte, d: nat, k: Codes)
    ensures Opens(b) ==> Pretty(st, Next(b, k), d, false) == Next(b, Pretty(st, k, d + 1, true))
    ensures b == 0x2C ==> Pretty(st, Next(b, k), d, false) == Next(b, Line(st, d, Pretty(st, k, d, false)))
    ensures Closes(b) ==>
              && Pretty(st, Next(b, k), d + 1, false) == Line(st, d, Next(b, Pretty(st, k, d, false)))
              && Pretty(st, Next(b, k), d + 1, true) == Line(st, d, Next(b, Pretty(st, k, d, false)))
  {
    hide Line;
  }

  /** What the compact layout puts between things: nothing. */
  lemma CompactLayout(st: Style, began: bool, d: nat, k: Codes)
    ensures ShowNewLine(Compact(st), k) == ShowIndent(Compact(st), d, k) == ShowLead(Compact(st), began, d, k) == k
    ensures ShowOneIndent(Compact(st), k) == k
  {
  }

  lemma {:induction false} PrettyBody(st: Style, t: Json, d: nat, k: Codes)
    requires !HasFloat(t)
    ensures Pretty(st, ShowBody(Compact(st), t, d, k), d, false) == ShowBody(st, t, d, Pretty(st, k, d, false))
    decreases t, 0
  {
    hide Pretty, Decimal, ShowElements, ShowMembers, ShowQuoted, ShowNewLine, ShowIndent, Line;
    match t
    case Null => PrettyText(st, [0x6E, 0x75, 0x6C, 0x6C], d, k);
    case Bool(b) => PrettyText(st, if b then [0x74, 0x72, 0x75, 0x65] else [0x66, 0x61, 0x6C, 0x73, 0x65], d, k);
    case Int(i) => PrettyDecimal(st, i, d, k);
    case Str(s) => PrettyQuoted(st, s, d, k);
    case Arr(vs) =>
      CompactClose(st, d, 0x5D, k);
      PrettyMark(st, 0x5B, d, ShowElements(Compact(st), vs, 0, d, Next(0x5D, k)));
      PrettyElements(st, vs, d, k);
    case Obj(ms) =>
      CompactClose(st, d, 0x7D, k);
      PrettyMark(st, 0x7B, d, ShowMembers(Compact(st), ms, 0, d, Next(0x7D, k)));
      PrettyMembers(st, ms, d, k);
  }

  lemma CompactClose(st: Style, d: nat, bracket: byte, k: Codes)
    ensures ShowNewLine(Compact(st), ShowIndent(Compact(st), d, Next(bracket, k))) == Next(bracket, k)
  {
  }

  lemma PrettyDecimal(st: Style, i: int, d: nat, k: Codes)
    ensures Pretty(st, Append(Decimal(i), k), d, false) == Append(Decimal(i), Pretty(st, k, d, false))
  {
    DecimalNatPlain(if i < 0 then -i else i);
    PrettyText(st, Decimal(i), d, k);
  }

  /** The closing line of a container at depth `d`. */
  function Closing(st: Style, d: nat, bracket: byte, k: Codes): Codes {
    ShowNewLine(st, ShowIndent(st, d, Next(bracket, k)))
  }

  lemma {:induction false} PrettyElements(st: Style, vs: seq<Json>, d: nat, k: Codes)
    requires forall v | v in vs :: !HasFloat(v)
    ensures Pretty(st, ShowElements(Compact(st), vs, 0, d, Next(0x5D, k)), d + 1, true) ==
            ShowElements(st, vs, 0, d, Closing(st, d, 0x5D, Pretty(st, k, d, false)))
    decreases vs, |vs|, 1
  {
    hide Pretty, ShowBody, Line, HasFloat;
    if vs == [] {
      PrettyMark(st, 0x5D, d, k);
      LineShown(st, d, Next(0x5D, Pretty(st, k, d, false)));
    } else {
      PrettyFrom(st, vs, 0, d, k);
      var more := if |vs| == 1 then Next(0x5D, k)
                  else Next(0x2C, ShowElements(Compact(st), vs, 1, d, Next(0x5D, k)));
      NotFloat(vs[0]);
      BodyHead(Compact(st), vs[0], d + 1, more);
      PrettyBegan(st, ShowElements(Compact(st), vs, 0, d, Next(0x5D, k)), d + 1);
    }
  }

  /** The elements from the `i`-th on, from the start of a line. */
  lemma {:induction false} PrettyFrom(st: Style, vs: seq<Json>, i: nat, d: nat, k: Codes)
    requires i < |vs| && forall v | v in vs :: !HasFloat(v)
    ensures var s := ShowElements(Compact(st), vs, i, d, Next(0x5D, k));
            && Line(st, d + 1, Pretty(st, s, d + 1, false)) ==
               (if i == 0 then ShowElements(st, vs, i, d, Closing(st, d, 0x5D, Pretty(st, k, d, false)))
                else ShowNewLine(st, ShowElements(st, vs, i, d, Closing(st, d, 0x5D, Pretty(st, k, d, false)))))
    decreases vs, |vs| - i, 0
  {
    hide Pretty, ShowBody, Line, HasFloat;
    var last := i == |vs| - 1;
    var more := if last then Next(0x5D, k) else Next(0x2C, ShowElements(Compact(st), vs, i + 1, d, Next(0x5D, k)));
    CompactLayout(st, i == 0, d + 1, ShowBody(Compact(st), vs[i], d + 1, more));
    assert vs[i] in vs;
    PrettyBody(st, vs[i], d + 1, more);
    if last {
      PrettyMark(st, 0x5D, d, k);
      LineShown(st, d, Next(0x5D, Pretty(st, k, d, false)));
    } else {
      PrettyMark(st, 0x2C, d + 1, ShowElements(Compact(st), vs, i + 1, d, Next(0x5D, k)));
      PrettyFrom(st, vs, i + 1, d, k);
    }
    LineShown(st, d + 1, ShowBody(st, vs[i], d + 1, Pretty(st, more, d + 1, false)));
  }

  lemma {:induction false} PrettyMembers(st: Style, ms: seq<Member>, d: nat, k: Codes)
    requires forall m | m in ms :: !HasFloat(m.value)
    ensures Pretty(st, ShowMembers(Compact(st), ms, 0, d, Next(0x7D, k)), d + 1, true) ==
            ShowMembers(st, ms, 0, d, Closing(st, d, 0x7D, Pretty(st, k, d, false)))
    decreases ms, |ms|, 1
  {
    hide Pretty, ShowBody, Line, HasFloat;
    if ms == [] {
      PrettyMark(st, 0x7D, d, k);
      LineShown(st, d, Next(0x7D, Pretty(st, k, d, false)));
    } else {
      PrettyMembersFrom(st, ms, 0, d, k);
      PrettyBegan(st, ShowMembers(Compact(st), ms, 0, d, Next(0x7D, k)), d + 1);
    }
  }

  lemma {:induction false} PrettyMembersFrom(st: Style, ms: seq<Member>, i: nat, d: nat, k: Codes)
    requires i < |ms| && forall m | m in ms :: !HasFloat(m.value)
    ensures var s := ShowMembers(Compact(st), ms, i, d, Next(0x7D, k));
            && Line(st, d + 1, Pretty(st, s, d + 1, false)) ==
               (if i == 0 then ShowMembers(st, ms, i, d, Closing(st, d, 0x7D, Pretty(st, k, d, false)))
                else ShowNewLine(st, ShowMembers(st, ms, i, d, Closing(st, d, 0x7D, Pretty(st, k, d, false)))))
    decreases ms, |ms| - i, 0
  {
    hide Pretty, ShowMember, Line, HasFloat;
    var last := i == |ms| - 1;
    var more := if last then Next(0x7D, k) else Next(0x2C, ShowMembers(Compact(st), ms, i + 1, d, Next(0x7D, k)));
    CompactLayout(st, i == 0, d + 1, ShowMember(Compact(st), ms[i], d + 1, more));
    assert ms[i] in ms;
    PrettyMember(st, ms[i], d + 1, more);
    if last {
      PrettyMark(st, 0x7D, d, k);
      LineShown(st, d, Next(0x7D, Pretty(st, k, d, false)));
    } else {
      PrettyMark(st, 0x2C, d + 1, ShowMembers(Compact(st), ms, i + 1, d, Next(0x7D, k)));
      PrettyMembersFrom(st, ms, i + 1, d, k);
    }
    LineShown(st, d + 1, ShowMember(st, ms[i], d + 1, Pretty(st, more, d + 1, false)));
  }

  lemma {:induction false} PrettyMember(st: Style, m: Member, d: nat, k: Codes)
    requires !HasFloat(m.value)
    ensures Pretty(st, ShowMember(Compact(st), m, d, k), d, false) == ShowMember(st, m, d, Pretty(st, k, d, false))
    decreases m, 0
  {
    hide Pretty, ShowBody, ShowQuoted, HasFloat;
    var body := ShowBody(Compact(st), m.value, d, k);
    CompactLayout(st, false, d, body);
    PrettyQuoted(st, m.key, d, Next(0x3A, body));
    PrettyColon(st, d, body);
    PrettyBody(st, m.value, d, k);
  }

  lemma PrettyColon(st: Style, d: nat, k: Codes)
    ensures Pretty(st, Next(0x3A, k), d, false) == Next(0x3A, ShowOneIndent(st, Pretty(st, k, d, false)))
  {
    hide Line;
  }

  /** Every dump is the compact dump of the same tree with the new lines, the indentation
      and the blanks that its brackets, commas and colons call for. */
  lemma DumpIsPretty(st: Style, t: Json)
    requires AsciiIndent(st) && !HasFloat(t)
    ensures DecodeAll(Dumped(st, t)) == Pretty(st, DecodeAll(Dumped(Compact(st), t)), 0, false)
  {
    hide Dumped, ShowBody;
    DumpedDecodes(st, t);
    DumpedDecodes(Compact(st), t);
    PrettyBody(st, t, 0, End);
    assert Pretty(st, End, 0, false) == End;
  }
}

/** What becomes of a tree that is dumped and parsed again. */
module JsonRoundTrip {
  import opened Outcomes
  import opened Encoding
  import opened Json
  import opened JsonScanner
  import opened JsonGrammar
  import opened JsonLayout
  import opened JsonShow
  import opened JsonNumbers
  import opened JsonStrings
  import opened JsonTokens

  // ---------- the tree that comes back ----------

  function ReadString(escapeUnicode: bool, s: seq<byte>): Outcome<seq<byte>> {
    var points :- ReadPoints(escapeUnicode, DecodeAll(s));
    Ok(EncodeAll(points))
  }

  /** `t` as it comes back from its own dump, or the way in which parsing fails. */
  function ReadBack(escapeUnicode: bool, t: Json): Outcome<Json>
    decreases t, 0
  {
    match t
    case Int(i) => if i < 0 - INT64_MAX || i > INT64_MAX then Err(Overflowed) else Ok(t)
    case Str(s) =>
      var text :- ReadString(escapeUnicode, s);
      Ok(Str(text))
    case Arr(vs) =>
      var elems :- ReadElements(escapeUnicode, [], vs, 0);
      Ok(Arr(elems))
    case Obj(ms) =>
      var members :- ReadMembers(escapeUnicode, [], ms, 0);
      Ok(Obj(members))
    case _ => Ok(t)
  }

  function ReadElements(escapeUnicode: bool, acc: seq<Json>, vs: seq<Json>, i: nat): Outcome<seq<Json>>
    requires i <= |vs|
    decreases vs, |vs| - i
  {
    if i == |vs| then Ok(acc)
    else
      var v :- ReadBack(escapeUnicode, vs[i]);
      ReadElements(escapeUnicode, acc + [v], vs, i + 1)
  }

  /** Keys that come back alike collapse into the first of them. */
  function ReadMembers(escapeUnicode: bool, acc: seq<Member>, ms: seq<Member>, i: nat): Outcome<seq<Member>>
    requires i <= |ms|
    decreases ms, |ms| - i
  {
    if i == |ms| then Ok(acc)
    else
      var key :- ReadString(escapeUnicode, ms[i].key);
      var v :- ReadBack(escapeUnicode, ms[i].value);
      ReadMembers(escapeUnicode, Emplace(acc, Member(key, v)), ms, i + 1)
  }

  // ---------- white space in a dump ----------

  /** Pretty dumps are indented with white space. */
  predicate SpaceIndent(st: Style) {
    st.Pretty() ==> IsSpace(st.indentChar)
  }

  lemma IndentSkipped(st: Style, d: nat, k: View)
    requires SpaceIndent(st)
    ensures !ShowIndent(st, d, k).Bad?
    ensures SkipSpaces(ShowIndent(st, d, k)) == SkipSpaces(k)
    ensures Delimited(k) ==> Delimited(ShowIndent(st, d, k))
  {
    if st.Pretty() && d > 0 {
      WhiteSpaceSkipped(Indentation(st, d), k);
    }
  }

  lemma NewLineSkipped(st: Style, k: View)
    ensures !ShowNewLine(st, k).Bad?
    ensures SkipSpaces(ShowNewLine(st, k)) == SkipSpaces(k)
    ensures Delimited(k) ==> Delimited(ShowNewLine(st, k))
  {
  }

  lemma OneIndentSkipped(st: Style, k: View)
    requires SpaceIndent(st)
    ensures !ShowOneIndent(st, k).Bad?
    ensures SkipSpaces(ShowOneIndent(st, k)) == SkipSpaces(k)
  {
  }

  lemma LeadSkipped(st: Style, began: bool, d: nat, k: View)
    requires SpaceIndent(st)
    ensures !ShowLead(st, began, d, k).Bad?
    ensures SkipSpaces(ShowLead(st, began, d, k)) == SkipSpaces(k)
  {
    IndentSkipped(st, d, k);
    NewLineSkipped(st, ShowIndent(st, d, k));
  }

  /** The closing line of a container. */
  function Close(st: Style, d: nat, bracket: byte, k: Codes): Codes {
    ShowNewLine(st, ShowIndent(st, d, Next(bracket, k)))
  }

  lemma CloseScanned(st: Style, d: nat, bracket: byte, k: View)
    requires SpaceIndent(st) && (bracket == 0x5D || bracket == 0x7D)
    ensures !Close(st, d, bracket, k).Bad? && Delimited(Close(st, d, bracket, k))
    ensures Scan(Close(st, d, bracket, k)) == Ok(Scanned(Punctuation(bracket), false, 0, k))
  {
    IndentSkipped(st, d, Next(bracket, k));
    NewLineSkipped(st, ShowIndent(st, d, Next(bracket, k)));
  }

  // ---------- the first token of a value ----------

  /** A value starts with the first character of its token. */
  ghost predicate Starts(s: Codes) {
    && s.Next? && !IsSpace(s.head) && s.head != 0x2F
    && (ScanToken(s).Ok? ==> StartsValue(ScanToken(s).value.token))
  }

  predicate Word(text: seq<CodePoint>, token: Token) {
    || (text == NULL_TEXT && token == LiteralNull)
    || (text == TRUE_TEXT && token == LiteralTrue)
    || (text == FALSE_TEXT && token == LiteralFalse)
  }

  lemma WordLetters(text: seq<CodePoint>, token: Token)
    requires Word(text, token)
    ensures forall i :: 0 <= i < |text| ==> 0 < text[i] < 128
    ensures text != [] && text[0] == if token.LiteralNull? then 0x6E else if token.LiteralTrue? then 0x74 else 0x66
    ensures token.LiteralNull? || token.LiteralTrue? || token.LiteralFalse?
  {
  }

  lemma WordToken(text: seq<CodePoint>, token: Token, s: View)
    requires Word(text, token) && s.Next? && s.head == text[0]
    requires forall i :: 0 <= i < |text| ==> 0 < text[i] < 128
    ensures ScanToken(s) == ScanLiteral(text, token, s)
    ensures Starts(s)
  {
    hide ScanNumber, ScanLiteral;
    WordLetters(text, token);
  }

  lemma WordStarts(text: seq<CodePoint>, token: Token, k: View)
    requires Word(text, token)
    ensures Starts(Append(text, k))
    ensures ScanToken(Append(text, k)) == Ok(Scanned(token, false, 0, k))
  {
    WordLetters(text, token);
    WordToken(text, token, Append(text, k));
    WordScan(text, token, text, k);
  }

  lemma NumberStarts(i: int, k: View)
    requires Delimited(k)
    ensures Starts(Append(Decimal(i), k))
    ensures ScanToken(Append(Decimal(i), k)) == ScanNumber(Append(Decimal(i), k))
  {
    DecimalScan(i, k);
    NumberToken(Append(Decimal(i), k));
  }

  lemma NumberToken(s: View)
    requires s.Next? && (s.head == 0x2D || 0x30 <= s.head <= 0x39)
    ensures ScanToken(s) == ScanNumber(s) && Starts(s)
  {
    hide ScanNumber;
  }

  lemma BodyStarts(st: Style, t: Json, d: nat, k: View)
    requires !t.Float? && EndsWell(k) && Delimited(k)
    ensures Starts(ShowBody(st, t, d, k))
  {
    match t
    case Null => WordStarts(NULL_TEXT, LiteralNull, k);
    case Bool(b) => WordStarts(if b then TRUE_TEXT else FALSE_TEXT, if b then LiteralTrue else LiteralFalse, k);
    case Int(i) => NumberStarts(i, k);
    case Str(s) => MarkStarts(0x22, ShowBody(st, t, d, k));
    case Arr(_) => MarkStarts(0x5B, ShowBody(st, t, d, k));
    case Obj(_) => MarkStarts(0x7B, ShowBody(st, t, d, k));
  }

  lemma MarkStarts(mark: byte, s: Codes)
    requires s.Next? && s.head == mark && (mark == 0x22 || mark == 0x5B || mark == 0x7B)
    ensures Starts(s)
  {
  }

  lemma StartScanned(s: View, body: View)
    requires SkipSpaces(s) == SkipSpaces(body) && Starts(body)
    ensures Scan(s) == ScanToken(body)
  {
  }

  // ---------- parsing a dump ----------

  /** `do_parse` on a value whose first character is at hand. */
  function FirstParsed(body: View): Outcome<Parsed> {
    var sc :- ScanToken(body);
    ParseToken(sc)
  }

  lemma ValueParsed(s: View, body: View)
    requires SkipSpaces(s) == SkipSpaces(body) && Starts(body)
    ensures ParseValue(s) == FirstParsed(body)
  {
    StartScanned(s, body);
  }

  ghost predicate Comes(r: Outcome<Parsed>, e: Outcome<Json>, k: View) {
    if e.Ok? then r == Ok(Parsed(e.value, k)) else r == Err(e.error)
  }

  predicate Plain(t: Json) {
    !HasFloat(t) && Decodable(t)
  }

  lemma CommaScanned(k: View)
    ensures Scan(Next(0x2C, k)) == Ok(Scanned(ValueSeparator, false, 0, k))
  {
  }

  /** One round of the array loop: an element that gives `e`, and what follows it. */
  ghost predicate ElementDone(acc: seq<Json>, s: View, e: Outcome<Json>, more: View) {
    && (e.Err? ==> ParseArray(acc, s) == Err(e.error))
    && (e.Ok? ==>
          var next := Scan(more);
          && next.Ok?
          && (next.value.token == ValueSeparator ==> ParseArray(acc, s) == ParseArray(acc + [e.value], next.value.view))
          && (next.value.token == EndArray ==> ParseArray(acc, s) == Ok(Parsed(Arr(acc + [e.value]), next.value.view))))
  }

  lemma ArrayRound(acc: seq<Json>, s: View, body: View, e: Outcome<Json>, more: View)
    requires SkipSpaces(s) == SkipSpaces(body) && Starts(body) && Comes(FirstParsed(body), e, more)
    requires Scan(more).Ok?
    ensures ElementDone(acc, s, e, more)
  {
    StartScanned(s, body);
  }

  lemma {:induction false} ElementBack(st: Style, acc: seq<Json>, v: Json, began: bool, d: nat, more: View)
    requires SpaceIndent(st) && EndsWell(more) && Delimited(more) && Plain(v) && Scan(more).Ok?
    ensures var s := ShowLead(st, began, d, ShowBody(st, v, d, more));
            !s.Bad? && ElementDone(acc, s, ReadBack(st.escapeUnicode, v), more)
    decreases v, 1
  {
    var body := ShowBody(st, v, d, more);
    TokenBack(st, v, d, more);
    LeadSkipped(st, began, d, body);
    ArrayRound(acc, ShowLead(st, began, d, body), body, ReadBack(st.escapeUnicode, v), more);
  }

  lemma {:induction false} LastElementBack(st: Style, acc: seq<Json>, v: Json, began: bool, d: nat, k: View)
    requires SpaceIndent(st) && EndsWell(k) && Plain(v)
    ensures var s := ShowLead(st, began, d + 1, ShowBody(st, v, d + 1, Close(st, d, 0x5D, k)));
            var e := ReadBack(st.escapeUnicode, v);
            !s.Bad? && ParseArray(acc, s) == if e.Ok? then Ok(Parsed(Arr(acc + [e.value]), k)) else Err(e.error)
    decreases v, 2
  {
    CloseScanned(st, d, 0x5D, k);
    ElementBack(st, acc, v, began, d + 1, Close(st, d, 0x5D, k));
  }

  lemma {:induction false} NextElementBack(st: Style, acc: seq<Json>, v: Json, began: bool, d: nat, rest: View)
    requires SpaceIndent(st) && EndsWell(rest) && Plain(v)
    ensures var s := ShowLead(st, began, d, ShowBody(st, v, d, Next(0x2C, ShowNewLine(st, rest))));
            var e := ReadBack(st.escapeUnicode, v);
            !s.Bad? && ParseArray(acc, s) == if e.Ok? then ParseArray(acc + [e.value], rest) else Err(e.error)
    decreases v, 2
  {
    var line := ShowNewLine(st, rest);
    CommaScanned(line);
    ElementBack(st, acc, v, began, d, Next(0x2C, line));
    var e := ReadBack(st.escapeUnicode, v);
    if e.Ok? {
      ArrayNewLine(st, acc + [e.value], rest);
    }
  }

  lemma ArrayNewLine(st: Style, acc: seq<Json>, s: View)
    ensures !ShowNewLine(st, s).Bad?
    ensures ParseArray(acc, ShowNewLine(st, s)) == ParseArray(acc, s)
  {
    NewLineSkipped(st, s);
  }

  function AsArray(e: Outcome<seq<Json>>): Outcome<Json> {
    if e.Ok? then Ok(Arr(e.value)) else Err(e.error)
  }

  lemma ArrayCloses(st: Style, acc: seq<Json>, d: nat, k: View)
    requires SpaceIndent(st) && EndsWell(k)
    ensures !Close(st, d, 0x5D, k).Bad?
    ensures ParseArray(acc, Close(st, d, 0x5D, k)) == Ok(Parsed(Arr(acc), k))
  {
    CloseScanned(st, d, 0x5D, k);
  }

  lemma NothingRead(escapeUnicode: bool, acc: seq<Json>)
    ensures ReadElements(escapeUnicode, acc, [], 0) == Ok(acc)
  {
  }

  lemma ElementRead(escapeUnicode: bool, acc: seq<Json>, vs: seq<Json>, i: nat)
    requires i < |vs|
    ensures var e := ReadBack(escapeUnicode, vs[i]);
            ReadElements(escapeUnicode, acc, vs, i) ==
            if e.Ok? then ReadElements(escapeUnicode, acc + [e.value], vs, i + 1) else Err(e.error)
    ensures ReadElements(escapeUnicode, acc, vs, |vs|) == Ok(acc)
  {
  }

  lemma {:induction false} ElementsBack(st: Style, acc: seq<Json>, vs: seq<Json>, i: nat, d: nat, k: View)
    requires SpaceIndent(st) && EndsWell(k) && (i < |vs| || i == |vs| == 0)
    requires forall v | v in vs :: Plain(v)
    ensures var s := ShowElements(st, vs, i, d, Close(st, d, 0x5D, k));
            && !s.Bad?
            && Comes(ParseArray(acc, s), AsArray(ReadElements(st.escapeUnicode, acc, vs, i)), k)
    decreases vs, |vs| - i
  {
    hide ReadBack, ParseArray, ReadElements;
    var close := Close(st, d, 0x5D, k);
    if i == |vs| {
      NothingRead(st.escapeUnicode, acc);
      ArrayCloses(st, acc, d, k);
    } else if i == |vs| - 1 {
      LastElementBack(st, acc, vs[i], i == 0, d, k);
      var e := ReadBack(st.escapeUnicode, vs[i]);
      ElementRead(st.escapeUnicode, acc, vs, i);
      ElementRead(st.escapeUnicode, if e.Ok? then acc + [e.value] else acc, vs, i);
    } else {
      var rest := ShowElements(st, vs, i + 1, d, close);
      NextElementBack(st, acc, vs[i], i == 0, d + 1, rest);
      var e := ReadBack(st.escapeUnicode, vs[i]);
      ElementRead(st.escapeUnicode, acc, vs, i);
      if e.Ok? {
        ElementsBack(st, acc + [e.value], vs, i + 1, d, k);
      }
    }
  }

  ghost predicate ReadsKey(r: Outcome<Text>, e: Outcome<seq<byte>>, k: View) {
    if e.Ok? then r == Ok(Text(e.value, k)) else r == Err(e.error)
  }

  /** A quoted string, read from its opening quote. */
  lemma QuotedBack(escapeUnicode: bool, s: seq<byte>, k: View)
    requires EndsWell(DecodeAll(s)) && EndsWell(k)
    ensures Starts(ShowQuoted(escapeUnicode, s, k))
    ensures var v := ShowQuoted(escapeUnicode, s, k); ScanToken(v) == Ok(Scanned(ValueString, false, 0, v))
    ensures ReadsKey(ScanString([], ShowQuoted(escapeUnicode, s, k)), ReadString(escapeUnicode, s), k)
  {
    hide ReadPoints, ScanString;
    var v := ShowQuoted(escapeUnicode, s, k);
    MarkStarts(0x22, v);
    StringFromText(escapeUnicode, [], v, DecodeAll(s), k);
    var points := ReadPoints(escapeUnicode, DecodeAll(s));
    assert points.Ok? ==> [] + EncodeAll(points.value) == EncodeAll(points.value);
  }

  /** One round of the object loop: a member that gives `key` and `e`, and what follows. */
  ghost predicate MemberDone(acc: seq<Member>, s: View, key: Outcome<seq<byte>>, e: Outcome<Json>, more: View) {
    && (key.Err? ==> ParseObject(acc, s) == Err(key.error))
    && (key.Ok? && e.Err? ==> ParseObject(acc, s) == Err(e.error))
    && (key.Ok? && e.Ok? ==>
          var next := Scan(more);
          var ms := Emplace(acc, Member(key.value, e.value));
          && next.Ok?
          && (next.value.token == ValueSeparator ==> ParseObject(acc, s) == ParseObject(ms, next.value.view))
          && (next.value.token == EndObject ==> ParseObject(acc, s) == Ok(Parsed(Obj(ms), next.value.view))))
  }

  lemma ObjectRound(acc: seq<Member>, s: View, quote: View, key: Outcome<seq<byte>>, colon: View, value: View,
                    e: Outcome<Json>, more: View)
    requires Scan(s) == Ok(Scanned(ValueString, false, 0, quote)) && ReadsKey(ScanString([], quote), key, colon)
    requires Scan(colon) == Ok(Scanned(NameSeparator, false, 0, value))
    requires Comes(ParseValue(value), e, more) && Scan(more).Ok?
    ensures MemberDone(acc, s, key, e, more)
  {
    hide Scan, ScanString, ParseValue;
  }

  lemma ColonScanned(k: View)
    ensures Scan(Next(0x3A, k)) == Ok(Scanned(NameSeparator, false, 0, k))
  {
  }

  lemma {:induction false} MemberBack(st: Style, acc: seq<Member>, m: Member, began: bool, d: nat, more: View)
    requires SpaceIndent(st) && EndsWell(more) && Delimited(more) && Scan(more).Ok?
    requires EndsWell(DecodeAll(m.key)) && Plain(m.value)
    ensures var s := ShowLead(st, began, d, ShowMember(st, m, d, more));
            var key, e := ReadString(st.escapeUnicode, m.key), ReadBack(st.escapeUnicode, m.value);
            !s.Bad? && MemberDone(acc, s, key, e, more)
    decreases m, 1
  {
    hide ReadBack, ReadString, ParseObject, FirstParsed, ScanString, Scan, ScanToken, SkipSpaces;
    hide ShowQuoted, ShowBody, Decodable, HasFloat;
    var esc := st.escapeUnicode;
    var body := ShowBody(st, m.value, d, more);
    TokenBack(st, m.value, d, more);
    var value := ShowOneIndent(st, body);
    OneIndentSkipped(st, body);
    ValueParsed(value, body);
    var colon := Next(0x3A, value);
    ColonScanned(value);
    var quote := ShowQuoted(esc, m.key, colon);
    QuotedBack(esc, m.key, colon);
    var s := ShowLead(st, began, d, quote);
    LeadSkipped(st, began, d, quote);
    StartScanned(s, quote);
    ObjectRound(acc, s, quote, ReadString(esc, m.key), colon, value, ReadBack(esc, m.value), more);
  }

  lemma ObjectNewLine(st: Style, acc: seq<Member>, s: View)
    ensures !ShowNewLine(st, s).Bad?
    ensures ParseObject(acc, ShowNewLine(st, s)) == ParseObject(acc, s)
  {
    NewLineSkipped(st, s);
  }

  /** A member that gives `key` and `e` joins the ones before it. */
  function Joined(acc: seq<Member>, key: Outcome<seq<byte>>, e: Outcome<Json>): (r: Outcome<seq<Member>>)
  {
    if key.Err? then Err(key.error) else if e.Err? then Err(e.error) else Ok(Emplace(acc, Member(key.value, e.value)))
  }

  function MemberRead(escapeUnicode: bool, acc: seq<Member>, m: Member): Outcome<seq<Member>> {
    Joined(acc, ReadString(escapeUnicode, m.key), ReadBack(escapeUnicode, m.value))
  }

  lemma {:induction false} LastMemberBack(st: Style, acc: seq<Member>, m: Member, began: bool, d: nat, k: View)
    requires SpaceIndent(st) && EndsWell(k) && EndsWell(DecodeAll(m.key)) && Plain(m.value)
    ensures var s := ShowLead(st, began, d + 1, ShowMember(st, m, d + 1, Close(st, d, 0x7D, k)));
            var e := MemberRead(st.escapeUnicode, acc, m);
            !s.Bad? && ParseObject(acc, s) == if e.Ok? then Ok(Parsed(Obj(e.value), k)) else Err(e.error)
    decreases m, 2
  {
    hide ParseObject, ReadBack, ReadString, ShowMember, Emplace, Decodable, HasFloat, DecodeAll;
    CloseScanned(st, d, 0x7D, k);
    MemberBack(st, acc, m, began, d + 1, Close(st, d, 0x7D, k));
  }

  lemma {:induction false} NextMemberBack(st: Style, acc: seq<Member>, m: Member, began: bool, d: nat, rest: View)
    requires SpaceIndent(st) && EndsWell(rest) && EndsWell(DecodeAll(m.key)) && Plain(m.value)
    ensures var s := ShowLead(st, began, d, ShowMember(st, m, d, Next(0x2C, ShowNewLine(st, rest))));
            var e := MemberRead(st.escapeUnicode, acc, m);
            !s.Bad? && ParseObject(acc, s) == if e.Ok? then ParseObject(e.value, rest) else Err(e.error)
    decreases m, 2
  {
    hide ParseObject, ReadBack, ReadString, ShowMember, Emplace, Decodable, HasFloat, DecodeAll;
    var line := ShowNewLine(st, rest);
    CommaScanned(line);
    MemberBack(st, acc, m, began, d, Next(0x2C, line));
    var e := MemberRead(st.escapeUnicode, acc, m);
    if e.Ok? {
      ObjectNewLine(st, e.value, rest);
    }
  }

  lemma ObjectCloses(st: Style, acc: seq<Member>, d: nat, k: View)
    requires SpaceIndent(st) && EndsWell(k)
    ensures !Close(st, d, 0x7D, k).Bad?
    ensures ParseObject(acc, Close(st, d, 0x7D, k)) == Ok(Parsed(Obj(acc), k))
  {
    CloseScanned(st, d, 0x7D, k);
  }

  function AsObject(e: Outcome<seq<Member>>): Outcome<Json> {
    if e.Ok? then Ok(Obj(e.value)) else Err(e.error)
  }

  lemma MembersRead(escapeUnicode: bool, acc: seq<Member>, ms: seq<Member>, i: nat)
    requires i <= |ms|
    ensures ReadMembers(escapeUnicode, acc, ms, i) ==
            if i == |ms| then Ok(acc)
            else
              var e := MemberRead(escapeUnicode, acc, ms[i]);
              if e.Ok? then ReadMembers(escapeUnicode, e.value, ms, i + 1) else Err(e.error)
  {
    hide ReadBack, ReadString, Emplace;
  }

  lemma {:induction false} MembersBack(st: Style, acc: seq<Member>, ms: seq<Member>, i: nat, d: nat, k: View)
    requires SpaceIndent(st) && EndsWell(k) && (i < |ms| || i == |ms| == 0)
    requires forall m | m in ms :: EndsWell(DecodeAll(m.key)) && Plain(m.value)
    ensures var s := ShowMembers(st, ms, i, d, Close(st, d, 0x7D, k));
            && !s.Bad?
            && Comes(ParseObject(acc, s), AsObject(ReadMembers(st.escapeUnicode, acc, ms, i)), k)
    decreases ms, |ms| - i
  {
    hide MemberRead, ParseObject, Scan, ShowMember, ReadMembers, ShowLead, Plain, DecodeAll;
    var close := Close(st, d, 0x7D, k);
    MembersRead(st.escapeUnicode, acc, ms, i);
    if i == |ms| {
      ObjectCloses(st, acc, d, k);
      return;
    }
    var e := MemberRead(st.escapeUnicode, acc, ms[i]);
    if i == |ms| - 1 {
      LastMemberBack(st, acc, ms[i], i == 0, d, k);
      MembersRead(st.escapeUnicode, if e.Ok? then e.value else acc, ms, i + 1);
    } else {
      NextMemberBack(st, acc, ms[i], i == 0, d + 1, ShowMembers(st, ms, i + 1, d, close));
      if e.Ok? {
        MembersBack(st, e.value, ms, i + 1, d, k);
      }
    }
  }

  lemma WordBack(st: Style, t: Json, d: nat, k: View)
    requires t.Null? || t.Bool?
    ensures !ShowBody(st, t, d, k).Bad?
    ensures Comes(FirstParsed(ShowBody(st, t, d, k)), Ok(t), k)
  {
    hide ScanToken;
    if t.Null? {
      WordStarts(NULL_TEXT, LiteralNull, k);
    } else {
      WordStarts(if t.b then TRUE_TEXT else FALSE_TEXT, if t.b then LiteralTrue else LiteralFalse, k);
    }
  }

  lemma NumberBack(i: int, k: View)
    requires Delimited(k)
    ensures !Append(Decimal(i), k).Bad?
    ensures var e := if i < 0 - INT64_MAX || i > INT64_MAX then Err(Overflowed) else Ok(Int(i));
            Comes(FirstParsed(Append(Decimal(i), k)), e, k)
  {
    hide ScanToken, ScanNumber, Decimal, Append;
    NumberStarts(i, k);
    DecimalScan(i, k);
  }

  /** A value that is a single token. */
  lemma ScalarBack(st: Style, t: Json, d: nat, k: View)
    requires t.Null? || t.Bool? || t.Int? || (t.Str? && Decodable(t))
    requires EndsWell(k) && Delimited(k)
    ensures !ShowBody(st, t, d, k).Bad?
    ensures Comes(FirstParsed(ShowBody(st, t, d, k)), ReadBack(st.escapeUnicode, t), k)
  {
    if t.Null? || t.Bool? {
      WordBack(st, t, d, k);
    } else if t.Int? {
      hide FirstParsed;
      NumberBack(t.i, k);
    } else {
      hide ScanToken, ScanString, ReadString, ShowQuoted, Starts;
      QuotedBack(st.escapeUnicode, t.s, k);
    }
  }

  /** The reader on the text of a tree: exactly what `ReadBack` says. */
  lemma {:induction false} TokenBack(st: Style, t: Json, d: nat, k: View)
    requires SpaceIndent(st) && EndsWell(k) && Delimited(k) && Plain(t)
    ensures Starts(ShowBody(st, t, d, k))
    ensures Comes(FirstParsed(ShowBody(st, t, d, k)), ReadBack(st.escapeUnicode, t), k)
    decreases t, 0
  {
    hide ScanToken, ScanNumber, ScanString, ParseArray, ParseObject, ReadString, ReadElements, ReadMembers, Starts;
    var body := ShowBody(st, t, d, k);
    BodyStarts(st, t, d, k);
    match t
    case Arr(vs) =>
      MarkScanned(0x5B, body);
      ElementsBack(st, [], vs, 0, d, k);
    case Obj(ms) =>
      MarkScanned(0x7B, body);
      MembersBack(st, [], ms, 0, d, k);
    case _ =>
      ScalarBack(st, t, d, k);
  }

  lemma MarkScanned(mark: byte, s: View)
    requires s.Next? && s.head == mark && !s.tail.Bad? && (mark == 0x5B || mark == 0x7B)
    ensures ScanToken(s) == Ok(Scanned(Punctuation(mark), false, 0, s.tail))
  {
  }

  /** Parsing a dump gives exactly the tree `ReadBack` describes, or fails as it says,
      for every tree that can be dumped and every indentation with white space. */
  lemma DumpParses(st: Style, t: Json)
    requires SpaceIndent(st) && Plain(t)
    ensures Parse(Dumped(st, t)) == ReadBack(st.escapeUnicode, t)
  {
    hide ParseValue, FirstParsed, ReadBack, ShowBody, Dumped;
    DumpedDecodes(st, t);
    TokenBack(st, t, 0, End);
    var body := ShowBody(st, t, 0, End);
    ValueParsed(body, body);
  }
}

/** What parser::do_parse computes (configor_parser.hpp), as a function of the unread
    code points. */
module JsonGrammar {
  import opened Outcomes
  import opened Encoding
  import opened JsonScanner
  import opened Json

  datatype Parsed = Parsed(value: Json, view: View)

  predicate StartsValue(t: Token) {
    || t.LiteralTrue? || t.LiteralFalse? || t.LiteralNull? || t.ValueString?
    || t.ValueInteger? || t.ValueFloat? || t.BeginArray? || t.BeginObject?
  }

  /** Unread input counted twice, one less while an announced string is pending. */
  function Work(sc: Scanned): nat {
    2 * Size(sc.view) + if sc.token == ValueString then 0 else 1
  }

  /** `do_parse` when it reads its own first token. */
  function ParseValue(s: View): (r: Outcome<Parsed>)
    ensures (NoBlockComment(s) ==> r != Err(Hangs)) && (r.Ok? ==> Reaches(s, r.value.view))
    decreases 2 * Size(s) + 1, 2
  {
    var sc :- Scan(s);
    ParseToken(sc)
  }

  function ParseToken(sc: Scanned): (r: Outcome<Parsed>)
    requires sc.token == ValueString ==> Current(sc.view) == 0x22
    ensures (NoBlockComment(sc.view) ==> r != Err(Hangs)) && (r.Ok? ==> Reaches(sc.view, r.value.view))
    decreases Work(sc), 1
  {
    match sc.token
    case LiteralTrue => Ok(Parsed(Bool(true), sc.view))
    case LiteralFalse => Ok(Parsed(Bool(false), sc.view))
    case LiteralNull => Ok(Parsed(Null, sc.view))
    case ValueString =>
      var text :- ScanString([], sc.view);
      Ok(Parsed(Str(text.bytes), text.view))
    case ValueInteger => Ok(Parsed(Int(if sc.negative then -sc.number else sc.number), sc.view))
    case ValueFloat => Ok(Parsed(Float, sc.view))
    case BeginArray => ParseArray([], sc.view)
    case BeginObject => ParseObject([], sc.view)
    case _ => Err(Thrown)
  }

  /** The array loop; a separator may be followed by the closing bracket. */
  function ParseArray(vs: seq<Json>, s: View): (r: Outcome<Parsed>)
    ensures (NoBlockComment(s) ==> r != Err(Hangs)) && (r.Ok? ==> Reaches(s, r.value.view))
    decreases 2 * Size(s) + 1, 0
  {
    var sc :- Scan(s);
    if !StartsValue(sc.token) then
      if sc.token == EndArray then Ok(Parsed(Arr(vs), sc.view)) else Err(Thrown)
    else
      var v :- ParseToken(sc);
      var next :- Scan(v.view);
      if next.token == ValueSeparator then ParseArray(vs + [v.value], next.view)
      else if next.token == EndArray then Ok(Parsed(Arr(vs + [v.value]), next.view))
      else Err(Thrown)
  }

  /** The object loop; it also ends on a closing brace right after a key. */
  function ParseObject(ms: seq<Member>, s: View): (r: Outcome<Parsed>)
    ensures (NoBlockComment(s) ==> r != Err(Hangs)) && (r.Ok? ==> Reaches(s, r.value.view))
    decreases 2 * Size(s) + 1, 0
  {
    var sc :- Scan(s);
    if sc.token != ValueString then
      if sc.token == EndObject then Ok(Parsed(Obj(ms), sc.view)) else Err(Thrown)
    else
      var key :- ScanString([], sc.view);
      var colon :- Scan(key.view);
      if colon.token != NameSeparator then
        if colon.token == EndObject then Ok(Parsed(Obj(ms), colon.view)) else Err(Thrown)
      else
        var v :- ParseValue(colon.view);
        var next :- Scan(v.view);
        var m := Member(key.bytes, v.value);
        var members := Emplace(ms, m);
        if next.token == ValueSeparator then ParseObject(members, next.view)
        else if next.token == EndObject then Ok(Parsed(Obj(members), next.view))
        else Err(Thrown)
  }

  /** A whole document: one value and then the end of the input. */
  function ParseDocument(s: Codes): (r: Outcome<Json>)
    ensures NoBlockComment(s) ==> r != Err(Hangs)
  {
    if s.Bad? then Err(Thrown)
    else
      var v :- ParseValue(s);
      var last :- Scan(v.view);
      if last.token == EndOfInput then Ok(v.value) else Err(Thrown)
  }

  /** Parsing ends, by accepting or failing, on every input in whose code points no
      `/` is directly followed by `*`. */
  function Parse(bytes: seq<byte>): (r: Outcome<Json>)
    ensures NoBlockComment(DecodeAll(bytes)) ==> r != Err(Hangs)
  {
    ParseDocument(DecodeAll(bytes))
  }

  // ---------- comments ----------

  /** No `/` ends an odd run of stars; `odd` tells whether an odd run ends in front. */
  predicate NoOddClose(odd: bool, s: Codes)
    decreases s
  {
    s.Next? ==>
      if s.head == 0x2A then NoOddClose(!odd, s.tail) else !(odd && s.head == 0x2F) && NoOddClose(false, s.tail)
  }

  /** The text behind the first `/` that ends an odd run of stars. */
  function AfterOddClose(odd: bool, s: Codes): Codes
    decreases s
  {
    if !s.Next? then s
    else if s.head == 0x2A then AfterOddClose(!odd, s.tail)
    else if odd && s.head == 0x2F then s.tail
    else AfterOddClose(false, s.tail)
  }

  /** A block comment, exactly: its characters are read in pairs from a star on, so that
      the first `/` behind an odd run of stars closes it. Without one the loop is never
      left, unless it meets bytes that cannot be decoded. */
  lemma {:induction false} BlockCommentExactly(s: View)
    requires s.Next?
    ensures var after := AfterOddClose(false, s.tail);
            BlockComment(s) ==
            if NoOddClose(false, s.tail) then Err(if EndsWell(s) then Hangs else Thrown)
            else if after.Bad? then Err(Thrown)
            else SkipSpaces(after)
    decreases Size(s)
  {
    hide SkipSpaces;
    var t := s.tail;
    if t.Next? {
      if t.head != 0x2A {
        BlockCommentExactly(t);
      } else if t.tail.Next? && t.tail.head != 0x2F {
        BlockCommentExactly(t.tail);
      }
    }
  }

  /** What a document is that starts with a block comment: never finished if nothing
      closes the comment, and otherwise what follows it. */
  lemma LeadingComment(bytes: seq<byte>, text: Codes)
    requires DecodeAll(bytes) == Next(0x2F, Next(0x2A, text)) && EndsWell(text)
    ensures NoOddClose(false, text) ==> Parse(bytes) == Err(Hangs)
    ensures !NoOddClose(false, text) ==> Parse(bytes) == ParseDocument(AfterOddClose(false, text))
  {
    var s: View := Next(0x2F, Next(0x2A, text));
    BlockCommentExactly(s.tail);
    assert SkipSpaces(s) == SkipComments(s) == BlockComment(s.tail);
    AfterEndsWell(false, text);
    hide SkipSpaces, BlockComment;
    assert NoOddClose(false, text) ==> Scan(s) == Err(Hangs);
  }

  lemma {:induction false} AfterEndsWell(odd: bool, s: Codes)
    requires EndsWell(s)
    ensures EndsWell(AfterOddClose(odd, s)) && !AfterOddClose(odd, s).Bad?
    decreases s
  {
    if s.Next? {
      AfterEndsWell(if s.head == 0x2A then !odd else false, s.tail);
    }
  }

  /** The code points of a line comment, up to what ends it. */
  predicate InLine(text: seq<CodePoint>) {
    forall i :: 0 <= i < |text| ==> text[i] != 0x0A && text[i] != 0x0D
  }

  lemma {:induction false} LineCommentRead(c: CodePoint, text: seq<CodePoint>, end: CodePoint, k: View)
    requires InLine(text) && (end == 0x0A || end == 0x0D)
    ensures !Append(text, Next(end, k)).Bad? && !Append(text, End).Bad?
    ensures LineComment(Next(c, Append(text, Next(end, k)))) == SkipSpaces(k)
    ensures LineComment(Next(c, Append(text, End))) == Ok(End)
    decreases |text|
  {
    if text != [] {
      LineCommentRead(text[0], text[1..], end, k);
    }
  }

  /** Both kinds of comments are skipped like white space; a line comment ends with a line
      feed, a carriage return or the input. */
  lemma CommentsSkipped(line: seq<CodePoint>, end: CodePoint, k: View, block: Codes)
    requires InLine(line) && (end == 0x0A || end == 0x0D) && EndsWell(block) && !NoOddClose(false, block)
    ensures SkipSpaces(Next(0x2F, Next(0x2F, Append(line, Next(end, k))))) == SkipSpaces(k)
    ensures SkipSpaces(Next(0x2F, Next(0x2F, Append(line, End)))) == Ok(End)
    ensures !AfterOddClose(false, block).Bad?
    ensures SkipSpaces(Next(0x2F, Next(0x2A, block))) == SkipSpaces(AfterOddClose(false, block))
  {
    LineCommentRead(0x2F, line, end, k);
    BlockCommentExactly(Next(0x2A, block));
    AfterEndsWell(false, block);
    hide LineComment, BlockComment;
    assert SkipComments(Next(0x2F, Next(0x2F, Append(line, Next(end, k))))) == SkipSpaces(k);
    assert SkipComments(Next(0x2F, Next(0x2F, Append(line, End)))) == Ok(End);
    assert SkipComments(Next(0x2F, Next(0x2A, block))) == SkipSpaces(AfterOddClose(false, block));
  }

  /** `n` stars. */
  function Stars(n: nat, k: Codes): Codes {
    if n == 0 then k else Next(0x2A, Stars(n - 1, k))
  }

  lemma {:induction false} StarsCounted(odd: bool, n: nat, k: Codes)
    ensures var s := Stars(n, Next(0x2F, k));
            if odd == (n % 2 == 0) then !NoOddClose(odd, s) && AfterOddClose(odd, s) == k
            else NoOddClose(odd, s) == NoOddClose(false, k)
    decreases n
  {
    if n > 0 {
      StarsCounted(!odd, n - 1, k);
    }
  }

  /** A comment of stars only is closed exactly when those behind its opening are odd in
      number. */
  lemma StarsClose(n: nat, k: View)
    requires EndsWell(k) && NoOddClose(false, k)
    ensures EndsWell(Stars(n, Next(0x2F, k)))
    ensures SkipSpaces(Next(0x2F, Next(0x2A, Stars(n, Next(0x2F, k))))) ==
            if n % 2 == 1 then SkipSpaces(k) else Err(Hangs)
  {
    StarsEndWell(n, Next(0x2F, k));
    StarsCounted(false, n, k);
    BlockCommentExactly(Next(0x2A, Stars(n, Next(0x2F, k))));
    hide BlockComment;
    var s: View := Next(0x2A, Stars(n, Next(0x2F, k)));
    assert SkipComments(Next(0x2F, s)) == BlockComment(s);
  }

  lemma {:induction false} StarsEndWell(n: nat, k: Codes)
    ensures EndsWell(Stars(n, k)) == EndsWell(k)
  {
    if n > 0 {
      StarsEndWell(n - 1, k);
    }
  }

  // ---------- what the parser builds is a proper tree ----------

  lemma {:induction false} ValueWellTyped(s: View)
    requires ParseValue(s).Ok?
    ensures WellTyped(ParseValue(s).value.value)
    decreases 2 * Size(s) + 1, 2
  {
    TokenWellTyped(Scan(s).value);
  }

  lemma {:induction false} TokenWellTyped(sc: Scanned)
    requires sc.token == ValueString ==> Current(sc.view) == 0x22
    requires 0 <= sc.number <= INT64_MAX
    requires ParseToken(sc).Ok?
    ensures WellTyped(ParseToken(sc).value.value)
    decreases Work(sc), 1
  {
    if sc.token == BeginArray {
      ArrayWellTyped([], sc.view);
    } else if sc.token == BeginObject {
      ObjectWellTyped([], sc.view);
    }
  }

  lemma {:induction false} ArrayWellTyped(vs: seq<Json>, s: View)
    requires forall v | v in vs :: WellTyped(v)
    requires ParseArray(vs, s).Ok?
    ensures WellTyped(ParseArray(vs, s).value.value)
    decreases 2 * Size(s) + 1, 0
  {
    var sc := Scan(s).value;
    if StartsValue(sc.token) {
      TokenWellTyped(sc);
      var v := ParseToken(sc).value;
      var next := Scan(v.view).value;
      if next.token == ValueSeparator {
        ArrayWellTyped(vs + [v.value], next.view);
      }
    }
  }

  lemma EmplaceWellTyped(ms: seq<Member>, m: Member)
    requires WellTyped(Obj(ms)) && WellTyped(m.value)
    ensures WellTyped(Obj(Emplace(ms, m)))
  {
    EmplaceAscends(ms, m);
    EmplaceMembers(ms, m);
  }

  lemma {:induction false} ObjectWellTyped(ms: seq<Member>, s: View)
    requires WellTyped(Obj(ms))
    requires ParseObject(ms, s).Ok?
    ensures WellTyped(ParseObject(ms, s).value.value)
    decreases 2 * Size(s) + 1, 0
  {
    var sc := Scan(s).value;
    if sc.token == ValueString {
      var key := ScanString([], sc.view).value;
      var colon := Scan(key.view).value;
      if colon.token == NameSeparator {
        ValueWellTyped(colon.view);
        var v := ParseValue(colon.view).value;
        var m := Member(key.bytes, v.value);
        EmplaceWellTyped(ms, m);
        var next := Scan(v.view).value;
        if next.token == ValueSeparator {
          ObjectWellTyped(Emplace(ms, m), next.view);
        }
      }
    }
  }

  /** On every input that is accepted the result is a tree the types allow: members
      ascend without repetition and integers fit in 64 bits. */
  lemma ParseWellTyped(bytes: seq<byte>)
    requires Parse(bytes).Ok?
    ensures WellTyped(Parse(bytes).value)
  {
    ValueWellTyped(DecodeAll(bytes));
  }
}

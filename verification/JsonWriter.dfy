/** json_writer, its indent (json.hpp, configor_serializer.hpp) and the serializer that
    drives them. */
module JsonWriter {
  import opened Outcomes
  import opened Encoding
  import opened JsonScanner
  import opened Json
  import opened JsonLayout

  predicate AllAre(bs: seq<byte>, ch: byte) {
    forall i :: 0 <= i < |bs| ==> bs[i] == ch
  }

  /** The indent of a writer: a buffer of indent characters that grows with the depth. */
  class Indent {
    const step: nat
    const ch: byte
    var depth: nat
    var buffer: seq<byte>

    /** The buffer is long enough for the depth, so `put` never reads past it. */
    ghost predicate Valid()
      reads this
    {
      && AllAre(buffer, ch)
      && (ch != 0 ==> Width(depth, step) <= |buffer| && 2 * step <= |buffer|)
      && (ch == 0 ==> buffer == [])
    }

    constructor (step: int, ch: byte)
      ensures Valid() && depth == 0
      ensures this.step == (if step > 0 then step else 0) && this.ch == ch
    {
      this.step := if step > 0 then step else 0;
      this.ch := ch;
      depth, buffer := 0, [];
      new;
      Reserve(this.step * 2);
    }

    /** `reverse` of the original. */
    method Reserve(length: nat)
      requires AllAre(buffer, ch) && (ch == 0 ==> buffer == [])
      modifies this`buffer
      ensures AllAre(buffer, ch) && (ch == 0 ==> buffer == [])
      ensures ch != 0 ==> |old(buffer)| <= |buffer| && length <= |buffer|
    {
      if ch != 0 {
        if |buffer| < length {
          buffer := Repeat(ch, length + step * 2);
        }
      }
    }

    method Increment()
      requires Valid()
      modifies this
      ensures Valid() && depth == old(depth) + 1
    {
      depth := depth + 1;
      Reserve(Width(depth, step));
    }

    method Decrement()
      requires Valid() && depth > 0
      modifies this`depth
      ensures Valid() && depth == old(depth) - 1
    {
      depth := depth - 1;
    }

    /** What `os << indent` writes. */
    method Put() returns (bs: seq<byte>)
      requires Valid() && ch != 0
      ensures bs == Repeat(ch, Width(depth, step))
    {
      bs := buffer[..Width(depth, step)];
    }

    /** One indent character; the terminating NUL of an empty buffer when it is 0. */
    method PutOne() returns (bs: seq<byte>)
      requires Valid()
      modifies this`buffer
      ensures Valid() && bs == [ch]
    {
      Reserve(1);
      bs := (buffer + [0])[..1];
    }
  }

  predicate IsValueToken(t: Token) {
    || t.LiteralTrue? || t.LiteralFalse? || t.LiteralNull?
    || t.ValueString? || t.ValueInteger? || t.ValueFloat?
  }

  predicate IsBegin(t: Token) {
    t.BeginArray? || t.BeginObject?
  }

  predicate IsEnd(t: Token) {
    t.EndArray? || t.EndObject?
  }

  /** What a token itself writes, after the white space in front of it. */
  function Mark(t: Token): seq<byte> {
    match t
    case LiteralTrue => [0x74, 0x72, 0x75, 0x65]
    case LiteralFalse => [0x66, 0x61, 0x6C, 0x73, 0x65]
    case LiteralNull => [0x6E, 0x75, 0x6C, 0x6C]
    case BeginArray => [0x5B]
    case EndArray => [0x5D]
    case BeginObject => [0x7B]
    case EndObject => [0x7D]
    case NameSeparator => [0x3A]
    case ValueSeparator => [0x2C]
    case _ => []
  }

  class Writer {
    const style: Style
    const indent: Indent
    var out: Writes
    var began: bool
    var lastToken: Token

    ghost predicate Valid()
      reads indent
    {
      indent.Valid() && indent.step == style.Step() && indent.ch == style.indentChar
    }

    constructor (style: Style)
      ensures Valid() && fresh(indent)
      ensures this.style == style && out == Nothing && !began && lastToken == Uninitialized && indent.depth == 0
    {
      this.style := style;
      indent := new Indent(style.indent, style.indentChar);
      out, began, lastToken := Nothing, false, Uninitialized;
    }

    method Next(token: Token)
      requires Valid()
      requires IsEnd(token) ==> indent.depth > 0
      modifies this, indent
      ensures Valid()
      ensures began == IsBegin(token) && lastToken == token
      ensures indent.depth ==
              old(indent.depth) + (if IsBegin(token) then 1 else if IsEnd(token) then -1 else 0)
      ensures IsValueToken(token) || IsBegin(token) ==>
                var lead := PutLead(style, old(out), old(began), old(lastToken) == NameSeparator, old(indent.depth));
                out == if Mark(token) == [] then lead else Write(lead, Mark(token))
      ensures IsEnd(token) ==>
                out == Write(PutIndent(style, PutNewLine(style, old(out)), old(indent.depth) - 1), Mark(token))
      ensures token == NameSeparator ==> out == PutOneIndent(style, Write(old(out), Mark(token)))
      ensures token == ValueSeparator ==> out == PutNewLine(style, Write(old(out), Mark(token)))
      ensures token == EndOfInput ==> out == old(out)
    {
      OutputSpace(token);
      if IsBegin(token) {
        out := Write(out, Mark(token));
        began := true;
        indent.Increment();
      } else if IsEnd(token) {
        indent.Decrement();
        OutputNewline();
        OutputIndent();
        out := Write(out, Mark(token));
      } else if token == NameSeparator {
        out := Write(out, Mark(token));
        OutputOneIndent();
      } else if token == ValueSeparator {
        out := Write(out, Mark(token));
        OutputNewline();
      } else if token.LiteralTrue? || token.LiteralFalse? || token.LiteralNull? {
        out := Write(out, Mark(token));
      }
      lastToken := token;
    }

    /** The two switches with which `next` opens. */
    method OutputSpace(token: Token)
      requires Valid()
      modifies this`out, this`began
      ensures !began
      ensures out == if IsValueToken(token) || IsBegin(token)
                     then PutLead(style, old(out), old(began), lastToken == NameSeparator, indent.depth)
                     else old(out)
    {
      if began {
        began := false;
        if IsValueToken(token) || IsBegin(token) {
          OutputNewline();
        }
      }
      if style.Pretty() && lastToken != NameSeparator {
        if IsValueToken(token) || IsBegin(token) {
          OutputIndent();
        }
      }
    }

    method OutputIndent()
      requires Valid()
      modifies this`out
      ensures out == PutIndent(style, old(out), indent.depth)
    {
      if style.Pretty() && indent.ch != 0 && indent.step > 0 && indent.depth > 0 {
        var bs := indent.Put();
        out := Write(out, bs);
      }
    }

    method OutputOneIndent()
      requires Valid()
      modifies this`out, indent`buffer
      ensures Valid() && out == PutOneIndent(style, old(out))
    {
      if style.Pretty() {
        var bs := indent.PutOne();
        out := Write(out, bs);
      }
    }

    method OutputNewline()
      modifies this`out
      ensures out == PutNewLine(style, old(out))
    {
      if style.Pretty() {
        out := Write(out, [0x0A]);
      }
    }

    method PutInteger(i: int)
      modifies this`out
      ensures out == Write(old(out), Decimal(i))
    {
      out := Write(out, Decimal(i));
    }

    method PutString(s: seq<byte>) returns (r: Outcome<()>)
      modifies this`out
      ensures if EndsWell(DecodeAll(s)) then r.Ok? && out == PutQuoted(style.escapeUnicode, old(out), s)
              else r == Err(Thrown)
    {
      var input := new InStream(s);
      out := Write(out, [0x22]);
      ghost var start, codes := out, input.Unread();
      var more, code := Decode(input);
      ghost var rest := codes;
      while more
        invariant input.Valid()
        invariant match rest
                  case End => !more
                  case Bad => more && !input.Good()
                  case Next(c, t) => more && input.Good() && code == c && input.Unread() == t
        invariant EndsWell(rest) == EndsWell(codes)
        invariant PutPoints(style.escapeUnicode, out, rest) == PutPoints(style.escapeUnicode, start, codes)
        decreases Size(rest)
      {
        if !input.Good() {
          return Err(Thrown);
        }
        out := PutPoint(style.escapeUnicode, out, code);
        rest := rest.tail;
        more, code := Decode(input);
      }
      out := Write(out, [0x22]);
      return Ok(());
    }
  }

  // ---------- serializer ----------

  /** Where the writer is after a value: `out` written, depth as before. */
  ghost predicate Wrote(writer: Writer, out: Writes, depth: nat)
    reads writer, writer.indent
  {
    && writer.Valid()
    && writer.out == out && writer.indent.depth == depth
    && !writer.began && writer.lastToken != NameSeparator
  }

  ghost function Lead(writer: Writer): Writes
    reads writer, writer.indent
  {
    PutLead(writer.style, writer.out, writer.began, writer.lastToken == NameSeparator, writer.indent.depth)
  }

  /** `do_dump(c, writer)`. */
  method DoDump(c: Json, writer: Writer) returns (r: Outcome<()>)
    requires writer.Valid() && !HasFloat(c)
    modifies writer, writer.indent
    ensures if Decodable(c)
            then r.Ok? && Wrote(writer, PutBody(writer.style, old(Lead(writer)), c, old(writer.indent.depth)),
                                old(writer.indent.depth))
            else r == Err(Thrown)
    decreases c, 0
  {
    hide PutElements, PutMembers, PutQuoted, Decimal;
    match c {
      case Obj(ms) =>
        r := DumpObject(ms, writer);
      case Arr(vs) =>
        r := DumpArray(vs, writer);
      case Str(s) =>
        writer.Next(ValueString);
        r := writer.PutString(s);
      case Bool(b) =>
        if b {
          writer.Next(LiteralTrue);
        } else {
          writer.Next(LiteralFalse);
        }
        r := Ok(());
      case Int(i) =>
        writer.Next(ValueInteger);
        writer.PutInteger(i);
        r := Ok(());
      case Null =>
        writer.Next(LiteralNull);
        r := Ok(());
    }
  }

  lemma NothingInside(st: Style, w: Writes, d: nat)
    ensures PutElements(st, w, [], 0, d) == w && PutMembers(st, w, [], 0, d) == w
  {
  }

  /** The array case of `do_dump`. */
  method DumpArray(vs: seq<Json>, writer: Writer) returns (r: Outcome<()>)
    requires writer.Valid() && forall v | v in vs :: !HasFloat(v)
    modifies writer, writer.indent
    ensures if forall v | v in vs :: Decodable(v)
            then r.Ok? && Wrote(writer, PutBody(writer.style, old(Lead(writer)), Arr(vs), old(writer.indent.depth)),
                                old(writer.indent.depth))
            else r == Err(Thrown)
    decreases vs, 1
  {
    hide Decodable, HasFloat, PutElements, PutIndent, PutNewLine;
    writer.Next(BeginArray);
    NothingInside(writer.style, writer.out, writer.indent.depth - 1);
    if vs != [] {
      r := DumpElements(vs, writer);
      if r.Err? {
        return;
      }
    }
    writer.Next(EndArray);
    return Ok(());
  }

  method DumpElements(vs: seq<Json>, writer: Writer) returns (r: Outcome<()>)
    requires writer.Valid() && forall v | v in vs :: !HasFloat(v)
    requires vs != [] && writer.began && writer.lastToken != NameSeparator && writer.indent.depth > 0
    modifies writer, writer.indent
    ensures if forall v | v in vs :: Decodable(v)
            then r.Ok? && Wrote(writer, PutElements(writer.style, old(writer.out), vs, 0, old(writer.indent.depth) - 1),
                                old(writer.indent.depth))
            else r == Err(Thrown)
    decreases vs, 0
  {
    hide PutBody, PutLead, Decodable, HasFloat;
    ghost var st, d := writer.style, writer.indent.depth - 1;
    ghost var all := PutElements(st, writer.out, vs, 0, d);
    for i := 0 to |vs|
      invariant writer.Valid() && writer.indent.depth == d + 1
      invariant writer.began == (i == 0) && writer.lastToken != NameSeparator
      invariant forall k :: 0 <= k < i ==> Decodable(vs[k])
      invariant PutElements(st, writer.out, vs, i, d) == all
    {
      r := DumpElement(vs[i], i != |vs| - 1, writer);
      if r.Err? {
        return;
      }
    }
    return Ok(());
  }

  /** The object case of `do_dump`. */
  method DumpObject(ms: seq<Member>, writer: Writer) returns (r: Outcome<()>)
    requires writer.Valid() && forall m | m in ms :: !HasFloat(m.value)
    modifies writer, writer.indent
    ensures if forall m | m in ms :: EndsWell(DecodeAll(m.key)) && Decodable(m.value)
            then r.Ok? && Wrote(writer, PutBody(writer.style, old(Lead(writer)), Obj(ms), old(writer.indent.depth)),
                                old(writer.indent.depth))
            else r == Err(Thrown)
    decreases ms, 1
  {
    hide Decodable, DecodeAll, EndsWell, HasFloat, PutMembers, PutIndent, PutNewLine;
    writer.Next(BeginObject);
    NothingInside(writer.style, writer.out, writer.indent.depth - 1);
    if ms != [] {
      r := DumpMembers(ms, writer);
      if r.Err? {
        return;
      }
    }
    writer.Next(EndObject);
    return Ok(());
  }

  method DumpMembers(ms: seq<Member>, writer: Writer) returns (r: Outcome<()>)
    requires writer.Valid() && forall m | m in ms :: !HasFloat(m.value)
    requires ms != [] && writer.began && writer.lastToken != NameSeparator && writer.indent.depth > 0
    modifies writer, writer.indent
    ensures if forall m | m in ms :: EndsWell(DecodeAll(m.key)) && Decodable(m.value)
            then r.Ok? && Wrote(writer, PutMembers(writer.style, old(writer.out), ms, 0, old(writer.indent.depth) - 1),
                                old(writer.indent.depth))
            else r == Err(Thrown)
    decreases ms, 0
  {
    hide PutMember, PutLead, Decodable, DecodeAll, HasFloat;
    ghost var st, d := writer.style, writer.indent.depth - 1;
    ghost var all := PutMembers(st, writer.out, ms, 0, d);
    for i := 0 to |ms|
      invariant writer.Valid() && writer.indent.depth == d + 1
      invariant writer.began == (i == 0) && writer.lastToken != NameSeparator
      invariant forall k :: 0 <= k < i ==> EndsWell(DecodeAll(ms[k].key)) && Decodable(ms[k].value)
      invariant PutMembers(st, writer.out, ms, i, d) == all
    {
      r := DumpMember(ms[i], i != |ms| - 1, writer);
      if r.Err? {
        return;
      }
    }
    return Ok(());
  }

  ghost function Separated(st: Style, w: Writes, more: bool): Writes {
    if more then PutNewLine(st, Write(w, [0x2C])) else w
  }

  /** One round of the array loop: a value, and a separator unless it is the last. */
  method DumpElement(v: Json, more: bool, writer: Writer) returns (r: Outcome<()>)
    requires writer.Valid() && !HasFloat(v)
    modifies writer, writer.indent
    ensures if Decodable(v)
            then
              var body := PutBody(writer.style, old(Lead(writer)), v, old(writer.indent.depth));
              r.Ok? && Wrote(writer, Separated(writer.style, body, more), old(writer.indent.depth))
            else r == Err(Thrown)
    decreases v, 1
  {
    r := DoDump(v, writer);
    if r.Ok? && more {
      writer.Next(ValueSeparator);
    }
  }

  /** One round of the object loop: key, colon and value, and a separator. */
  method DumpMember(m: Member, more: bool, writer: Writer) returns (r: Outcome<()>)
    requires writer.Valid() && !HasFloat(m.value)
    modifies writer, writer.indent
    ensures if EndsWell(DecodeAll(m.key)) && Decodable(m.value)
            then
              var body := PutMember(writer.style, old(Lead(writer)), m, old(writer.indent.depth));
              r.Ok? && Wrote(writer, Separated(writer.style, body, more), old(writer.indent.depth))
            else r == Err(Thrown)
    decreases m, 0
  {
    hide PutBody, PutQuoted, Decodable, DecodeAll, HasFloat;
    writer.Next(ValueString);
    r := writer.PutString(m.key);
    if r.Err? {
      return;
    }
    writer.Next(NameSeparator);
    r := DoDump(m.value, writer);
    if r.Ok? && more {
      writer.Next(ValueSeparator);
    }
  }

  /** `do_dump(c, writer, os)` into a string. */
  method DumpJson(c: Json, style: Style) returns (r: Outcome<seq<byte>>)
    requires !HasFloat(c)
    ensures r == if Decodable(c) then Ok(Dumped(style, c)) else Err(Thrown)
  {
    var writer := new Writer(style);
    var _ :- DoDump(c, writer);
    writer.Next(EndOfInput);
    return Ok(Content(writer.out));
  }
}

/** json_reader (json.hpp): a tokenizer that holds one code point and reads strings
    only when asked to. Each method computes the function of the same name in
    JsonScanner. */
module JsonReader {
  import opened Outcomes
  import opened Encoding
  import opened JsonScanner

  class Reader {
    const input: InStream
    var current: int
    var negative: bool
    var number: int

    /** The code point at hand and the ones not read yet. */
    ghost var view: Codes

    /** A string token has been announced and not yet read. */
    ghost var pending: bool

    ghost predicate Valid()
      reads this`current, this`view, input
    {
      && input.Valid()
      && (input.failbit ==> input.eofbit)
      && 0 <= current <= 0x10FFFF
      && (input.eofbit ==> current == 0)
      && !view.Bad?
      && view == if input.eofbit then End else Next(current, input.Unread())
    }

    ghost predicate At(s: Codes)
      reads this`current, this`view, input
    {
      Valid() && view == s
    }

    constructor (bytes: seq<byte>)
      ensures fresh(input) && input.Valid() && input.Good() && input.Unread() == DecodeAll(bytes)
      ensures !pending
    {
      input := new InStream(bytes);
      current, negative, number, view, pending := 0, false, 0, End, false;
    }

    /** `source`: reads the first code point. */
    method Source() returns (r: Outcome<()>)
      requires input.Valid() && input.Good()
      modifies this`current, this`view, input
      ensures var s := old(input.Unread());
              if s.Bad? then r == Err(Thrown) else r.Ok? && At(s)
    {
      var _ :- Fetch();
      return Ok(());
    }

    /** The body of `read_next`, also on a stream from which nothing was read yet. */
    method Fetch() returns (r: Outcome<CodePoint>)
      requires input.Valid() && (input.failbit ==> input.eofbit)
      modifies this`current, this`view, input
      ensures var s := if old(input.eofbit) then End else old(input.Unread());
              if s.Bad? then r == Err(Thrown) else r == Ok(current) && At(s)
    {
      var more, code := Decode(input);
      if more {
        if !input.Good() {
          return Err(Thrown);
        }
        current := code;
        view := Next(code, input.Unread());
      } else {
        current := 0;
        view := End;
      }
      return Ok(current);
    }

    method ReadNext() returns (r: Outcome<CodePoint>)
      requires Valid()
      modifies this`current, this`view, input
      ensures var e := Advance(old(view));
              if e.Ok? then r == Ok(current) && At(e.value) else r == Err(Thrown)
    {
      r := Fetch();
    }

    // ---------- white space and comments ----------

    method SkipSpaces() returns (r: Outcome<()>)
      requires Valid()
      modifies this`current, this`view, input
      ensures var e := JsonScanner.SkipSpaces(old(view));
              if e.Ok? then r.Ok? && At(e.value) else r == Err(e.error)
      decreases Size(view), 3
    {
      ghost var s := view;
      while current == 0x20 || current == 0x09 || current == 0x0A || current == 0x0D
        invariant Valid() && Size(view) <= Size(s)
        invariant JsonScanner.SkipSpaces(view) == JsonScanner.SkipSpaces(s)
        decreases Size(view)
      {
        var _ :- ReadNext();
      }
      if current == 0x2F {
        r := SkipComments();
        return;
      }
      return Ok(());
    }

    method SkipComments() returns (r: Outcome<()>)
      requires Valid() && current == 0x2F
      modifies this`current, this`view, input
      ensures var e := JsonScanner.SkipComments(old(view));
              if e.Ok? then r.Ok? && At(e.value) else r == Err(e.error)
      decreases Size(view), 2
    {
      var _ :- ReadNext();
      if current == 0x2F {
        r := LineComment();
      } else if current == 0x2A {
        r := BlockComment();
      } else {
        r := Err(Thrown);
      }
    }

    method LineComment() returns (r: Outcome<()>)
      requires Valid() && view.Next?
      modifies this`current, this`view, input
      ensures var e := JsonScanner.LineComment(old(view));
              if e.Ok? then r.Ok? && At(e.value) else r == Err(e.error)
      decreases Size(view), 1
    {
      ghost var s := view;
      while true
        invariant Valid() && view.Next? && Size(view) <= Size(s)
        invariant JsonScanner.LineComment(view) == JsonScanner.LineComment(s)
        decreases Size(view)
      {
        var _ :- ReadNext();
        if current == 0x0A || current == 0x0D {
          r := SkipSpaces();
          return;
        }
        if input.eofbit {
          break;
        }
      }
      return Ok(());
    }

    method BlockComment() returns (r: Outcome<()>)
      requires Valid()
      modifies this`current, this`view, input
      ensures var e := JsonScanner.BlockComment(old(view));
              if e.Ok? then r.Ok? && At(e.value) else r == Err(e.error)
      decreases Size(view), 1
    {
      ghost var s := view;
      while true
        invariant Valid() && Size(view) <= Size(s)
        invariant JsonScanner.BlockComment(view) == JsonScanner.BlockComment(s)
        decreases Size(view)
      {
        if input.eofbit {
          // Reading on changes nothing: the original goes round this loop for ever.
          return Err(Hangs);
        }
        var c :- ReadNext();
        if c == 0x2A {
          var d :- ReadNext();
          if d == 0x2F {
            var _ :- ReadNext();
            break;
          }
        }
      }
      r := SkipSpaces();
    }

    // ---------- numbers ----------

    ghost predicate Scanned(e: Outcome<JsonScanner.Scanned>, r: Outcome<Token>)
      reads this, input
    {
      if e.Ok?
      then r == Ok(e.value.token) && At(e.value.view) && negative == e.value.negative && number == e.value.number
      else r == Err(e.error)
    }

    method ScanNumber() returns (r: Outcome<Token>)
      requires Valid()
      modifies this`current, this`view, this`negative, this`number, input
      ensures Scanned(JsonScanner.ScanNumber(old(view)), r)
    {
      hide JsonScanner.ScanInteger, JsonScanner.ScanFloat;
      negative, number := false, 0;
      if current == 0x2D || current == 0x2B {
        negative := current == 0x2D;
        var _ :- ReadNext();
      }
      if current == 0x30 {
        var _ :- ReadNext();
        if current == 0x2E {
          r := ScanFloat();
          return;
        }
        if current == 0x65 || current == 0x45 {
          return Err(Thrown);
        }
        return Ok(ValueInteger);
      }
      if !IsDigit(current) {
        // the CONFIGOR_ASSERT that opens scan_integer
        return Err(Aborted);
      }
      r := ScanInteger();
    }

    method ScanInteger() returns (r: Outcome<Token>)
      requires Valid() && view.Next? && IsDigit(current)
      modifies this`current, this`view, this`number, input
      ensures Scanned(JsonScanner.ScanInteger(negative, Current(old(view)) - 0x30, old(view)), r)
    {
      hide JsonScanner.ScanFloat, Reaches, NoBlockComment;
      number := current - 0x30;
      ghost var e := JsonScanner.ScanInteger(negative, number, view);
      while true
        invariant Valid()
        invariant view.Next? && JsonScanner.ScanInteger(negative, number, view) == e
        decreases Size(view)
      {
        var ch :- ReadNext();
        if ch == 0x2E || ch == 0x65 || ch == 0x45 {
          r := ScanFloat();
          return;
        }
        if !IsDigit(ch) {
          return Ok(ValueInteger);
        }
        var m := number * 10 + (ch - 0x30);
        if m > INT64_MAX {
          return Err(Overflowed);
        }
        number := m;
      }
    }

    method ScanFloat() returns (r: Outcome<Token>)
      requires Valid()
      requires current == 0x2E || current == 0x65 || current == 0x45
      modifies this`current, this`view, input
      ensures Scanned(JsonScanner.ScanFloat(negative, number, old(view)), r)
    {
      if current == 0x65 || current == 0x45 {
        r := ScanExponent();
        return;
      }
      var first :- ReadNext();
      if !IsDigit(first) {
        return Err(Thrown);
      }
      ghost var s := view;
      while true
        invariant Valid() && view.Next?
        invariant ScanFraction(negative, number, view) == ScanFraction(negative, number, s)
        decreases Size(view)
      {
        var ch :- ReadNext();
        if ch == 0x65 || ch == 0x45 {
          r := ScanExponent();
          return;
        }
        if !IsDigit(ch) {
          break;
        }
      }
      return Ok(ValueFloat);
    }

    method ScanExponent() returns (r: Outcome<Token>)
      requires Valid() && view.Next?
      requires current == 0x65 || current == 0x45
      modifies this`current, this`view, input
      ensures Scanned(JsonScanner.ScanExponent(negative, number, old(view)), r)
    {
      var _ :- ReadNext();
      if !((IsDigit(current) && current != 0x30) || current == 0x2D || current == 0x2B) {
        return Err(Thrown);
      }
      if current == 0x2B || current == 0x2D {
        var _ :- ReadNext();
      }
      r := SkipDigits();
    }

    /** The digit loop of `scan_exponent`. */
    method SkipDigits() returns (r: Outcome<Token>)
      requires Valid()
      modifies this`current, this`view, input
      ensures Scanned(JsonScanner.SkipDigits(negative, number, old(view)), r)
    {
      ghost var s := view;
      while true
        invariant Valid()
        invariant JsonScanner.SkipDigits(negative, number, view) == JsonScanner.SkipDigits(negative, number, s)
        decreases Size(view)
      {
        var ch :- ReadNext();
        if !IsDigit(ch) {
          break;
        }
      }
      return Ok(ValueFloat);
    }

    // ---------- tokens ----------

    method ScanLiteral(text: seq<CodePoint>, result: Token) returns (r: Outcome<Token>)
      requires Valid()
      requires forall k :: 0 <= k < |text| ==> 0 < text[k] < 128
      modifies this`current, this`view, input
      ensures var e := JsonScanner.ScanLiteral(text, result, old(view));
              if e.Ok? then r == Ok(result) && At(e.value.view) else r == Err(e.error)
    {
      ghost var s := view;
      for i := 0 to |text|
        invariant Valid()
        invariant JsonScanner.ScanLiteral(text[i..], result, view) == JsonScanner.ScanLiteral(text, result, s)
      {
        assert text[i..][1..] == text[i + 1..];
        if text[i] != current % 256 {
          return Err(Thrown);
        }
        var _ :- ReadNext();
      }
      return Ok(result);
    }

    /** A string has to be read before the next token is asked for. */
    method Scan() returns (r: Outcome<Token>)
      requires Valid() && !pending
      modifies this, input
      ensures Announced(JsonScanner.Scan(old(view)), r)
    {
      var _ :- SkipSpaces();
      r := ScanToken();
    }

    ghost predicate Announced(e: Outcome<JsonScanner.Scanned>, r: Outcome<Token>)
      reads this, input
    {
      if e.Ok? then
        && r == Ok(e.value.token) && At(e.value.view)
        && (e.value.token == ValueInteger ==> negative == e.value.negative && number == e.value.number)
        && pending == (e.value.token == ValueString)
      else r == Err(e.error)
    }

    /** The switch of `scan`. */
    method ScanToken() returns (r: Outcome<Token>)
      requires Valid() && !pending
      modifies this, input
      ensures Announced(JsonScanner.ScanToken(old(view)), r)
    {
      if input.eofbit {
        return Ok(EndOfInput);
      }
      var result := Punctuation(current);
      if result != Uninitialized {
        var _ :- ReadNext();
        return Ok(result);
      }
      if current == 0x74 {
        r := ScanLiteral(TRUE_TEXT, LiteralTrue);
      } else if current == 0x66 {
        r := ScanLiteral(FALSE_TEXT, LiteralFalse);
      } else if current == 0x6E {
        r := ScanLiteral(NULL_TEXT, LiteralNull);
      } else if current == 0x22 {
        pending := true;
        r := Ok(ValueString);
      } else if current == 0x2D || current == 0x2B || 0x30 <= current <= 0x39 {
        r := ScanNumber();
      } else if current == 0 {
        r := Ok(EndOfInput);
      } else {
        r := Err(Thrown);
      }
    }

    method GetInteger() returns (i: int)
      ensures i == if negative then -number else number
    {
      i := if negative then -number else number;
    }

    // ---------- strings ----------

    method ReadEscapedCodepoint() returns (r: Outcome<int>)
      requires Valid()
      modifies this`current, this`view, input
      ensures var e := ReadHex(4, 0, old(view));
              if e.Ok? then r == Ok(e.value.code) && At(e.value.view) else r == Err(e.error)
    {
      ghost var s := view;
      var code := 0;
      for i := 0 to 4
        invariant Valid()
        invariant ReadHex(4 - i, code, view) == ReadHex(4, 0, s)
      {
        var ch :- ReadNext();
        if !IsHex(ch) {
          return Err(Thrown);
        }
        code := 16 * code + HexValue(ch);
      }
      return Ok(code);
    }

    /** The `u` case of `scan_string`: one escape, or two that form a pair. */
    method ReadUnicode() returns (r: Outcome<int>)
      requires Valid()
      modifies this`current, this`view, input
      ensures var e := JsonScanner.ReadUnicode(old(view));
              if e.Ok? then r == Ok(e.value.code) && At(e.value.view) else r == Err(e.error)
    {
      var code :- ReadEscapedCodepoint();
      if IsLeadSurrogate(code) {
        var backslash :- ReadNext();
        if backslash != 0x5C {
          return Err(Thrown);
        }
        var letter :- ReadNext();
        if letter != 0x75 {
          return Err(Thrown);
        }
        var trail :- ReadEscapedCodepoint();
        if !IsTrailSurrogate(trail) {
          return Err(Thrown);
        }
        return Ok(DecodeSurrogates(code, trail));
      }
      return Ok(code);
    }

    /** The backslash case of `scan_string`. */
    method ReadEscape() returns (r: Outcome<seq<byte>>)
      requires Valid()
      modifies this`current, this`view, input
      ensures var e := JsonScanner.ReadEscape(old(view));
              if e.Ok? then r == Ok(e.value.bytes) && At(e.value.view) else r == Err(e.error)
    {
      var escape :- ReadNext();
      if escape == 0x75 {
        var code :- ReadUnicode();
        return Ok(Encode(code));
      }
      var plain := SimpleEscape(escape);
      if plain < 0 {
        return Err(Thrown);
      }
      return Ok([plain]);
    }

    /** Takes the string announced by the last `Scan`, exactly once. */
    method GetString() returns (r: Outcome<seq<byte>>)
      requires Valid() && pending && view.Next? && current == 0x22
      modifies this`current, this`view, this`pending, input
      ensures var e := ScanString([], old(view));
              if e.Ok? then r == Ok(e.value.bytes) && At(e.value.view) && !pending else r == Err(e.error)
    {
      ghost var s := view;
      pending := false;
      var out: seq<byte> := [];
      while true
        invariant Valid() && !pending
        invariant ScanString(out, view) == ScanString([], s)
        decreases Size(view)
      {
        var _ :- ReadNext();
        if input.eofbit {
          return Err(Thrown);
        }
        if current == 0x22 {
          var _ :- ReadNext();
          return Ok(out);
        } else if current <= 0x1F {
          return Err(Thrown);
        } else if current != 0x5C {
          out := out + Encode(current);
        } else {
          var bytes :- ReadEscape();
          out := out + bytes;
        }
      }
    }
  }
}

/** parser (configor_parser.hpp): recursive descent over the tokens of a Reader. The
    tree that the original fills in place is returned. */
module JsonParser {
  import opened Outcomes
  import opened Encoding
  import opened JsonScanner
  import opened Json
  import opened JsonGrammar
  import opened JsonReader

  /** `do_parse(c, reader, last_token, read_next)`. Strings are read exactly once: the
      reader refuses to scan while one is pending. */
  method DoParse(reader: Reader, lastToken: Token, readNext: bool) returns (r: Outcome<Json>)
    requires reader.Valid()
    requires readNext ==> !reader.pending
    requires !readNext ==> reader.pending == lastToken.ValueString?
    requires !readNext && lastToken.ValueString? ==> Current(reader.view) == 0x22
    modifies reader, reader.input
    ensures var e := if readNext then ParseValue(old(reader.view))
                     else ParseToken(Scanned(lastToken, old(reader.negative), old(reader.number), old(reader.view)));
            if e.Ok? then r == Ok(e.value.value) && reader.At(e.value.view) && !reader.pending
            else r == Err(e.error)
    decreases if readNext then 2 * Size(reader.view) + 1
              else Work(Scanned(lastToken, reader.negative, reader.number, reader.view)),
              if readNext then 2 else 1
  {
    hide JsonScanner.Scan, ScanString, ParseArray, ParseObject, NoBlockComment;
    var token := lastToken;
    if readNext {
      token :- reader.Scan();
    }
    match token {
      case LiteralTrue =>
        r := Ok(Bool(true));
      case LiteralFalse =>
        r := Ok(Bool(false));
      case LiteralNull =>
        r := Ok(Null);
      case ValueString =>
        var text :- reader.GetString();
        r := Ok(Str(text));
      case ValueInteger =>
        var i := reader.GetInteger();
        r := Ok(Int(i));
      case ValueFloat =>
        r := Ok(Float);
      case BeginArray =>
        r := DoParseArray(reader);
      case BeginObject =>
        r := DoParseObject(reader);
      case _ =>
        r := Err(Thrown);
    }
  }

  /** The number read matters only with an integer token. */
  lemma SameToken(a: Scanned, b: Scanned)
    requires a.token == b.token && a.view == b.view
    requires a.token == ValueInteger ==> a.negative == b.negative && a.number == b.number
    requires a.token == ValueString ==> Current(a.view) == 0x22
    ensures ParseToken(a) == ParseToken(b)
  {
  }

  /** The `begin_array` case of `do_parse`. */
  method DoParseArray(reader: Reader) returns (r: Outcome<Json>)
    requires reader.Valid() && !reader.pending
    modifies reader, reader.input
    ensures var e := ParseArray([], old(reader.view));
            if e.Ok? then r == Ok(e.value.value) && reader.At(e.value.view) && !reader.pending
            else r == Err(e.error)
    decreases 2 * Size(reader.view) + 1, 0
  {
    hide JsonScanner.Scan, ParseToken, NoBlockComment;
    ghost var s := reader.view;
    ghost var e := ParseArray([], s);
    var elems: seq<Json> := [];
    while true
      invariant reader.Valid() && !reader.pending
      invariant Size(reader.view) <= Size(s)
      invariant ParseArray(elems, reader.view) == e
      decreases Size(reader.view)
    {
      ghost var before := reader.view;
      var token :- reader.Scan();
      if !StartsValue(token) {
        if token != EndArray {
          return Err(Thrown);
        }
        break;
      }
      SameToken(Scanned(token, reader.negative, reader.number, reader.view), JsonScanner.Scan(before).value);
      var value :- DoParse(reader, token, false);
      elems := elems + [value];
      token :- reader.Scan();
      if token != ValueSeparator {
        if token != EndArray {
          return Err(Thrown);
        }
        break;
      }
    }
    return Ok(Arr(elems));
  }

  /** The `begin_object` case of `do_parse`. */
  method DoParseObject(reader: Reader) returns (r: Outcome<Json>)
    requires reader.Valid() && !reader.pending
    modifies reader, reader.input
    ensures var e := ParseObject([], old(reader.view));
            if e.Ok? then r == Ok(e.value.value) && reader.At(e.value.view) && !reader.pending
            else r == Err(e.error)
    decreases 2 * Size(reader.view) + 1, 0
  {
    hide JsonScanner.Scan, ScanString, ParseValue, Emplace, NoBlockComment;
    ghost var s := reader.view;
    ghost var e := ParseObject([], s);
    var members: seq<Member> := [];
    while true
      invariant reader.Valid() && !reader.pending
      invariant Size(reader.view) <= Size(s)
      invariant ParseObject(members, reader.view) == e
      decreases Size(reader.view)
    {
      var token :- reader.Scan();
      if token != ValueString {
        if token != EndObject {
          return Err(Thrown);
        }
        break;
      }
      var key :- reader.GetString();
      token :- reader.Scan();
      if token != NameSeparator {
        if token != EndObject {
          return Err(Thrown);
        }
        break;
      }
      var value :- DoParse(reader, token, true);
      members := Emplace(members, Member(key, value));
      token :- reader.Scan();
      if token != ValueSeparator {
        if token != EndObject {
          return Err(Thrown);
        }
        break;
      }
    }
    return Ok(Obj(members));
  }

  /** `json::parse` on a string. */
  method ParseJson(bytes: seq<byte>) returns (r: Outcome<Json>)
    ensures r == Parse(bytes)
  {
    var reader := new Reader(bytes);
    var _ :- reader.Source();
    var value :- DoParse(reader, Uninitialized, true);
    var last :- reader.Scan();
    if last != EndOfInput {
      return Err(Thrown);
    }
    return Ok(value);
  }
}

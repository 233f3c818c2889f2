/** The grammar the parser accepts, stated without the parser: concrete syntax trees, the
    lexemes they yield and the trees they mean. */
module JsonSyntax {
  import opened Outcomes
  import opened Encoding
  import opened Json
  import opened JsonScanner
  import opened JsonGrammar

  // ---------- lexemes ----------

  /** A mark, or a whole scalar: strings are read at once. */
  datatype Lexeme = Mark(token: Token) | Scalar(value: Json)

  datatype Lexemes = Stop | Lex(head: Lexeme, tail: Lexemes)

  /** The next lexeme, whoever asks for it. */
  function NextLexeme(s: View): Outcome<(Lexeme, View)> {
    var sc :- Scan(s);
    match sc.token
    case LiteralTrue => Ok((Scalar(Bool(true)), sc.view))
    case LiteralFalse => Ok((Scalar(Bool(false)), sc.view))
    case LiteralNull => Ok((Scalar(Null), sc.view))
    case ValueInteger => Ok((Scalar(Int(if sc.negative then -sc.number else sc.number)), sc.view))
    case ValueFloat => Ok((Scalar(Float), sc.view))
    case ValueString =>
      var text :- ScanString([], sc.view);
      Ok((Scalar(Str(text.bytes)), text.view))
    case _ => Ok((Mark(sc.token), sc.view))
  }

  /** The input begins with these lexemes. */
  predicate Lexes(s: View, ls: Lexemes)
    decreases ls
  {
    ls.Lex? ==>
      var n := NextLexeme(s);
      n.Ok? && n.value.0 == ls.head && Lexes(n.value.1, ls.tail)
  }

  // ---------- concrete syntax ----------

  /** How an object ends: like an array, after a comma, or right after a key. */
  datatype Ending = Closed | Comma | KeyOnly(key: seq<byte>)

  datatype Tree = Leaf(value: Json) | Array(elems: Trees, comma: bool) | Object(entries: Entries, ending: Ending)

  datatype Trees = NoTree | AndTree(tree: Tree, more: Trees)

  datatype Entries = NoEntry | AndEntry(key: seq<byte>, tree: Tree, more: Entries)

  /** The lexemes of a tree in front of `k`. */
  function Yield(t: Tree, k: Lexemes): Lexemes
    decreases t
  {
    match t
    case Leaf(v) => Lex(Scalar(v), k)
    case Array(es, comma) => Lex(Mark(BeginArray), YieldElems(es, comma, k))
    case Object(es, ending) => Lex(Mark(BeginObject), YieldEntries(es, ending, k))
  }

  function YieldElems(es: Trees, comma: bool, k: Lexemes): Lexemes
    decreases es
  {
    match es
    case NoTree => Lex(Mark(EndArray), k)
    case AndTree(t, more) =>
      Yield(t, if more.NoTree? && !comma then Lex(Mark(EndArray), k)
               else Lex(Mark(ValueSeparator), YieldElems(more, comma, k)))
  }

  function YieldEntries(es: Entries, ending: Ending, k: Lexemes): Lexemes
    decreases es
  {
    match es
    case NoEntry =>
      if ending.KeyOnly? then Lex(Scalar(Str(ending.key)), Lex(Mark(EndObject), k)) else Lex(Mark(EndObject), k)
    case AndEntry(key, t, more) =>
      Lex(Scalar(Str(key)), Lex(Mark(NameSeparator),
        Yield(t, if more.NoEntry? && ending.Closed? then Lex(Mark(EndObject), k)
                 else Lex(Mark(ValueSeparator), YieldEntries(more, ending, k)))))
  }

  /** Scalars stand for themselves; of equal keys the first counts. */
  function Meaning(t: Tree): Json
    decreases t
  {
    match t
    case Leaf(v) => v
    case Array(es, _) => Arr(Elements([], es))
    case Object(es, _) => Obj(Members([], es))
  }

  function Elements(vs: seq<Json>, es: Trees): seq<Json>
    decreases es
  {
    if es.NoTree? then vs else Elements(vs + [Meaning(es.tree)], es.more)
  }

  function Members(ms: seq<Member>, es: Entries): seq<Member>
    decreases es
  {
    if es.NoEntry? then ms else Members(Emplace(ms, Member(es.key, Meaning(es.tree))), es.more)
  }

  // ---------- every tree is parsed ----------

  lemma {:induction false} TreeParsed(t: Tree, k: Lexemes, s: View) returns (m: View)
    requires Lexes(s, Yield(t, k))
    ensures ParseValue(s) == Ok(Parsed(Meaning(t), m)) && Lexes(m, k)
    decreases t
  {
    hide Scan, ScanString, Emplace;
    var n := NextLexeme(s).value;
    match t
    case Leaf(v) => m := n.1;
    case Array(es, comma) => m := ElemsParsed([], es, comma, k, n.1);
    case Object(es, ending) => m := EntriesParsed([], es, ending, k, n.1);
  }

  lemma MarkLexed(s: View, mark: Token)
    requires NextLexeme(s).Ok? && NextLexeme(s).value.0 == Mark(mark)
    ensures Scan(s).Ok? && Scan(s).value.token == mark && Scan(s).value.view == NextLexeme(s).value.1
  {
    hide Scan, ScanString;
  }

  lemma ArrayRound(vs: seq<Json>, s: View, v: Json, m: View)
    requires ParseValue(s) == Ok(Parsed(v, m))
    ensures ParseArray(vs, s) ==
            (var next := Scan(m);
             if next.Err? then Err(next.error)
             else if next.value.token == ValueSeparator then ParseArray(vs + [v], next.value.view)
             else if next.value.token == EndArray then Ok(Parsed(Arr(vs + [v]), next.value.view))
             else Err(Thrown))
  {
    hide Scan;
    hide ParseToken;
    TokenStarts(Scan(s).value);
  }

  /** Only tokens that start a value give one. */
  lemma TokenStarts(sc: Scanned)
    requires sc.token == ValueString ==> Current(sc.view) == 0x22
    requires ParseToken(sc).Ok?
    ensures StartsValue(sc.token)
  {
  }

  lemma {:induction false} ElemsParsed(vs: seq<Json>, es: Trees, comma: bool, k: Lexemes, s: View) returns (m: View)
    requires Lexes(s, YieldElems(es, comma, k))
    ensures ParseArray(vs, s) == Ok(Parsed(Arr(Elements(vs, es)), m)) && Lexes(m, k)
    decreases es
  {
    hide ScanString, ParseValue, Scan, Meaning, Emplace;
    match es
    case NoTree => m := NextLexeme(s).value.1;
    case AndTree(t, more) =>
      var k1 := if more.NoTree? && !comma then Lex(Mark(EndArray), k)
                else Lex(Mark(ValueSeparator), YieldElems(more, comma, k));
      var m1 := TreeParsed(t, k1, s);
      ArrayRound(vs, s, Meaning(t), m1);
      MarkLexed(m1, k1.head.token);
      hide ParseArray;
      hide NextLexeme;
      var n := NextLexeme(m1).value;
      if more.NoTree? && !comma {
        m := n.1;
      } else {
        m := ElemsParsed(vs + [Meaning(t)], more, comma, k, n.1);
      }
  }

  lemma ObjectRound(ms: seq<Member>, s: View, sc: Scanned, key: Text, colon: Scanned, v: Json, m: View)
    requires Scan(s) == Ok(sc) && sc.token == ValueString && ScanString([], sc.view) == Ok(key)
    requires Scan(key.view) == Ok(colon) && colon.token == NameSeparator
    requires ParseValue(colon.view) == Ok(Parsed(v, m))
    ensures var members, next := Emplace(ms, Member(key.bytes, v)), Scan(m);
            ParseObject(ms, s) ==
              if next.Err? then Err(next.error)
              else if next.value.token == ValueSeparator then ParseObject(members, next.value.view)
              else if next.value.token == EndObject then Ok(Parsed(Obj(members), next.value.view))
              else Err(Thrown)
  {
    hide Scan, ScanString, ParseValue, Emplace;
  }

  lemma KeyLexed(s: View, key: seq<byte>)
    requires NextLexeme(s).Ok? && NextLexeme(s).value.0 == Scalar(Str(key))
    ensures Scan(s).Ok? && Scan(s).value.token == ValueString
    ensures ScanString([], Scan(s).value.view) == Ok(Text(key, NextLexeme(s).value.1))
  {
    hide Scan, ScanString;
  }

  lemma {:induction false} EntriesParsed(ms: seq<Member>, es: Entries, ending: Ending, k: Lexemes, s: View)
    returns (m: View)
    requires Lexes(s, YieldEntries(es, ending, k))
    ensures ParseObject(ms, s) == Ok(Parsed(Obj(Members(ms, es)), m)) && Lexes(m, k)
    decreases es
  {
    hide ScanString, ParseValue, Scan, Emplace, Meaning, Yield, YieldElems;
    var n := NextLexeme(s).value;
    match es
    case NoEntry => m := if ending.KeyOnly? then NextLexeme(n.1).value.1 else n.1;
    case AndEntry(key, t, more) =>
      var colon := NextLexeme(n.1).value;
      var k1 := if more.NoEntry? && ending.Closed? then Lex(Mark(EndObject), k)
                else Lex(Mark(ValueSeparator), YieldEntries(more, ending, k));
      var m1 := TreeParsed(t, k1, colon.1);
      KeyLexed(s, key);
      MarkLexed(n.1, NameSeparator);
      MarkLexed(m1, k1.head.token);
      ObjectRound(ms, s, Scan(s).value, ScanString([], Scan(s).value.view).value, Scan(n.1).value, Meaning(t), m1);
      hide ParseObject;
      hide NextLexeme;
      var next := NextLexeme(m1).value;
      if more.NoEntry? && ending.Closed? {
        m := next.1;
      } else {
        m := EntriesParsed(Emplace(ms, Member(key, Meaning(t))), more, ending, k, next.1);
      }
  }

  // ---------- everything parsed is a tree ----------

  lemma {:induction false} TokenFound(s: View, sc: Scanned, k: Lexemes) returns (t: Tree)
    requires Scan(s) == Ok(sc) && ParseToken(sc).Ok? && Lexes(ParseToken(sc).value.view, k)
    ensures Lexes(s, Yield(t, k)) && Meaning(t) == ParseToken(sc).value.value
    decreases Work(sc), 1
  {
    hide Scan, ScanString, Emplace;
    var r := ParseToken(sc).value;
    if sc.token == BeginArray {
      var es, comma := ElemsFound([], sc.view, k);
      t := Array(es, comma);
    } else if sc.token == BeginObject {
      var es, ending := EntriesFound([], sc.view, k);
      t := Object(es, ending);
    } else {
      t := Leaf(r.value);
    }
  }

  lemma {:induction false} ElemsFound(vs: seq<Json>, s: View, k: Lexemes) returns (es: Trees, comma: bool)
    requires ParseArray(vs, s).Ok? && Lexes(ParseArray(vs, s).value.view, k)
    ensures Lexes(s, YieldElems(es, comma, k)) && ParseArray(vs, s).value.value == Arr(Elements(vs, es))
    decreases 2 * Size(s) + 1, 0
  {
    hide Scan, ScanString, ParseToken;
    var sc := Scan(s).value;
    if !StartsValue(sc.token) {
      es, comma := NoTree, false;
    } else {
      var v := ParseToken(sc).value;
      var next := Scan(v.view).value;
      if next.token == ValueSeparator {
        var more, c := ElemsFound(vs + [v.value], next.view, k);
        comma := c || more.NoTree?;
        var t := TokenFound(s, sc, Lex(Mark(ValueSeparator), YieldElems(more, comma, k)));
        es := AndTree(t, more);
      } else {
        var t := TokenFound(s, sc, Lex(Mark(EndArray), k));
        es, comma := AndTree(t, NoTree), false;
      }
    }
  }

  lemma {:induction false} EntriesFound(ms: seq<Member>, s: View, k: Lexemes) returns (es: Entries, ending: Ending)
    requires ParseObject(ms, s).Ok? && Lexes(ParseObject(ms, s).value.view, k)
    ensures Lexes(s, YieldEntries(es, ending, k)) && ParseObject(ms, s).value.value == Obj(Members(ms, es))
    decreases 2 * Size(s) + 1, 0
  {
    hide Scan, ScanString, ParseToken, Emplace;
    var sc := Scan(s).value;
    if sc.token != ValueString {
      es, ending := NoEntry, Closed;
    } else {
      var key := ScanString([], sc.view).value;
      var colon := Scan(key.view).value;
      if colon.token != NameSeparator {
        es, ending := NoEntry, KeyOnly(key.bytes);
      } else {
        es, ending := EntryFound(ms, s, key, colon.view, k);
      }
    }
  }

  /** A key with its value, and what follows. */
  lemma {:induction false} EntryFound(ms: seq<Member>, s: View, key: Text, value: View, k: Lexemes)
    returns (es: Entries, ending: Ending)
    requires ParseObject(ms, s).Ok? && Lexes(ParseObject(ms, s).value.view, k)
    requires Scan(s).Ok? && Scan(s).value.token == ValueString && ScanString([], Scan(s).value.view) == Ok(key)
    requires Scan(key.view).Ok? && Scan(key.view).value.token == NameSeparator && Scan(key.view).value.view == value
    requires Size(value) < Size(s)
    ensures Lexes(s, YieldEntries(es, ending, k)) && ParseObject(ms, s).value.value == Obj(Members(ms, es))
    decreases 2 * Size(value) + 1, 3
  {
    hide Scan, ScanString, ParseToken, Emplace;
    var first := Scan(value).value;
    var v := ParseToken(first).value;
    var next := Scan(v.view).value;
    var members := Emplace(ms, Member(key.bytes, v.value));
    if next.token == ValueSeparator {
      var more, e := EntriesFound(members, next.view, k);
      ending := if e.Closed? && more.NoEntry? then Comma else e;
      var t := TokenFound(value, first, Lex(Mark(ValueSeparator), YieldEntries(more, ending, k)));
      es := AndEntry(key.bytes, t, more);
    } else {
      var t := TokenFound(value, first, Lex(Mark(EndObject), k));
      es, ending := AndEntry(key.bytes, t, NoEntry), Closed;
    }
  }

  // ---------- documents ----------

  /** The lexemes of a document: those of a tree, and then the end of the input. */
  function Document(t: Tree): Lexemes {
    Yield(t, Lex(Mark(EndOfInput), Stop))
  }

  /** A document is accepted with value `v` exactly when its lexemes are those of a tree
      that means `v`: arrays and objects may end in a comma, an object also right after a
      key, and nothing else is let through. */
  lemma AcceptedIff(bytes: seq<byte>, v: Json)
    ensures Parse(bytes) == Ok(v) <==>
            !DecodeAll(bytes).Bad? && exists t :: Meaning(t) == v && Lexes(DecodeAll(bytes), Document(t))
  {
    hide Scan, ScanString, ParseToken;
    var s := DecodeAll(bytes);
    var k := Lex(Mark(EndOfInput), Stop);
    if !s.Bad? {
      if t :| Meaning(t) == v && Lexes(s, Document(t)) {
        var m := TreeParsed(t, k, s);
        EndLexed(m);
      }
      if Parse(bytes) == Ok(v) {
        EndLexed(ParseValue(s).value.view);
        var t := TokenFound(s, Scan(s).value, k);
        assert Meaning(t) == v && Lexes(s, Document(t));
      }
    }
  }

  lemma EndLexed(m: View)
    ensures Lexes(m, Lex(Mark(EndOfInput), Stop)) <==> Scan(m).Ok? && Scan(m).value.token == EndOfInput
  {
    hide Scan, ScanString;
    assert forall n: View :: Lexes(n, Stop);
  }
}

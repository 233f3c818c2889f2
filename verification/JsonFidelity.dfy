/** Exactly which trees survive being dumped and parsed. */
module JsonFidelity {
  import opened Outcomes
  import opened Encoding
  import opened Json
  import opened JsonScanner
  import opened JsonGrammar
  import opened JsonLayout
  import opened JsonShow
  import opened JsonStrings
  import opened JsonRoundTrip

  /** The bytes the encoder would give its code points. */
  predicate Canonical(s: seq<byte>) {
    EncodeAll(Points(DecodeAll(s))) == s
  }

  predicate FaithfulText(escapeUnicode: bool, s: seq<byte>) {
    Canonical(s) && AllSurvive(escapeUnicode, DecodeAll(s))
  }

  predicate Faithful(escapeUnicode: bool, t: Json) {
    match t
    case Int(i) => i != -0x8000_0000_0000_0000
    case Str(s) => FaithfulText(escapeUnicode, s)
    case Arr(vs) => forall v | v in vs :: Faithful(escapeUnicode, v)
    case Obj(ms) => forall m | m in ms :: FaithfulText(escapeUnicode, m.key) && Faithful(escapeUnicode, m.value)
    case _ => true
  }

  /** Without escapes only the control characters that have no letter are lost; with
      them also U+007F-U+0FFF and lead surrogates. */
  lemma SurvivesRanges(c: CodePoint)
    ensures Survives(false, c) <==> c >= 0x20 || c == 0x08 || c == 0x09 || c == 0x0A || c == 0x0C || c == 0x0D
    ensures Survives(true, c) <==>
            || 0x20 <= c <= 0x7E || c == 0x08 || c == 0x09 || c == 0x0A || c == 0x0C || c == 0x0D
            || 0x1000 <= c <= 0xD7FF || 0xDC00 <= c
  {
  }

  // ---------- strings ----------

  /** What the reader builds is always canonical. */
  lemma EncodedIsCanonical(points: seq<CodePoint>)
    ensures DecodeAll(EncodeAll(points)) == Append(points, End)
    ensures Points(DecodeAll(EncodeAll(points))) == points
    ensures Canonical(EncodeAll(points))
  {
    DecodeEncodeAll(points, []);
    assert EncodeAll(points) + [] == EncodeAll(points);
    PointsOfAppend(points);
  }

  lemma TextComesBackIff(escapeUnicode: bool, s: seq<byte>)
    ensures ReadString(escapeUnicode, s) == Ok(s) <==> FaithfulText(escapeUnicode, s)
  {
    hide ReadPoints, EncodeAll, DecodeAll, AllSurvive;
    PointsComeBackIff(escapeUnicode, DecodeAll(s));
    var points := ReadPoints(escapeUnicode, DecodeAll(s));
    if points.Ok? {
      EncodedIsCanonical(points.value);
    }
  }

  /** The number of code points of a key, and one. */
  function Weight(key: seq<byte>): nat {
    1 + Size(DecodeAll(key))
  }

  lemma TextShrinks(escapeUnicode: bool, s: seq<byte>)
    requires ReadString(escapeUnicode, s).Ok?
    ensures Canonical(ReadString(escapeUnicode, s).value)
    ensures Weight(ReadString(escapeUnicode, s).value) <= Weight(s)
    ensures Weight(ReadString(escapeUnicode, s).value) == Weight(s) ==> AllSurvive(escapeUnicode, DecodeAll(s))
  {
    hide ReadPoints, EncodeAll, DecodeAll, AllSurvive;
    var points := ReadPoints(escapeUnicode, DecodeAll(s)).value;
    OthersShrink(escapeUnicode, DecodeAll(s));
    EncodedIsCanonical(points);
    PointsSize(DecodeAll(EncodeAll(points)));
  }

  // ---------- arrays ----------

  lemma {:induction false} ElementsExtend(escapeUnicode: bool, acc: seq<Json>, vs: seq<Json>, i: nat)
    requires i <= |vs| && ReadElements(escapeUnicode, acc, vs, i).Ok?
    ensures acc <= ReadElements(escapeUnicode, acc, vs, i).value
    decreases |vs| - i
  {
    if i < |vs| {
      ElementsExtend(escapeUnicode, acc + [ReadBack(escapeUnicode, vs[i]).value], vs, i + 1);
    }
  }

  lemma {:induction false} ElementsKept(escapeUnicode: bool, acc: seq<Json>, vs: seq<Json>, i: nat)
    requires i <= |vs|
    ensures ReadElements(escapeUnicode, acc, vs, i) == Ok(acc + vs[i..])
            <==> forall j :: i <= j < |vs| ==> ReadBack(escapeUnicode, vs[j]) == Ok(vs[j])
    decreases |vs| - i
  {
    hide ReadBack;
    if i == |vs| {
      assert acc + vs[i..] == acc;
    } else if ReadBack(escapeUnicode, vs[i]).Ok? {
      var v := ReadBack(escapeUnicode, vs[i]).value;
      ElementsKept(escapeUnicode, acc + [v], vs, i + 1);
      assert acc + vs[i..] == acc + [vs[i]] + vs[i + 1..];
      if ReadElements(escapeUnicode, acc, vs, i) == Ok(acc + vs[i..]) {
        ElementsExtend(escapeUnicode, acc + [v], vs, i + 1);
        assert (acc + [v])[|acc|] == (acc + vs[i..])[|acc|];
      }
    }
  }

  // ---------- objects ----------

  function TotalWeight(ms: seq<Member>): nat {
    if ms == [] then 0 else Weight(ms[0].key) + TotalWeight(ms[1..])
  }

  lemma {:induction false} EmplaceWeight(ms: seq<Member>, m: Member)
    ensures TotalWeight(Emplace(ms, m)) <= TotalWeight(ms) + Weight(m.key)
  {
    hide Weight, Precedes;
    if ms != [] && ms[0].key != m.key && !Precedes(m.key, ms[0].key) {
      EmplaceWeight(ms[1..], m);
      assert Emplace(ms, m)[1..] == Emplace(ms[1..], m);
    } else {
      assert ([m] + ms)[1..] == ms;
    }
  }

  /** Every key that comes back lighter, and every key that collapses with another, makes
      the object lighter. */
  lemma {:induction false} MembersWeight(escapeUnicode: bool, acc: seq<Member>, ms: seq<Member>, i: nat)
    requires i <= |ms| && ReadMembers(escapeUnicode, acc, ms, i).Ok?
    ensures var r := ReadMembers(escapeUnicode, acc, ms, i).value;
            && TotalWeight(r) <= TotalWeight(acc) + TotalWeight(ms[i..])
            && (TotalWeight(r) == TotalWeight(acc) + TotalWeight(ms[i..]) ==>
                  forall j :: i <= j < |ms| ==> AllSurvive(escapeUnicode, DecodeAll(ms[j].key)))
    decreases |ms| - i
  {
    hide ReadBack, ReadString, Weight, AllSurvive, DecodeAll, Emplace;
    MembersRead(escapeUnicode, acc, ms, i);
    if i < |ms| {
      var m := Member(ReadString(escapeUnicode, ms[i].key).value, ReadBack(escapeUnicode, ms[i].value).value);
      TextShrinks(escapeUnicode, ms[i].key);
      EmplaceWeight(acc, m);
      MembersWeight(escapeUnicode, Emplace(acc, m), ms, i + 1);
      assert ms[i..][1..] == ms[i + 1..];
    }
  }

  /** Where a member that comes back was read from. */
  ghost predicate ReadFrom(escapeUnicode: bool, x: Member, m: Member) {
    ReadString(escapeUnicode, m.key) == Ok(x.key) && ReadBack(escapeUnicode, m.value) == Ok(x.value)
  }

  lemma {:induction false} MembersOrigin(escapeUnicode: bool, acc: seq<Member>, ms: seq<Member>, i: nat, x: Member)
    requires i <= |ms| && ReadMembers(escapeUnicode, acc, ms, i).Ok?
    requires x in ReadMembers(escapeUnicode, acc, ms, i).value
    ensures x in acc || exists j :: i <= j < |ms| && ReadFrom(escapeUnicode, x, ms[j])
    decreases |ms| - i
  {
    hide ReadBack, ReadString, Emplace;
    MembersRead(escapeUnicode, acc, ms, i);
    if i < |ms| {
      var m := Member(ReadString(escapeUnicode, ms[i].key).value, ReadBack(escapeUnicode, ms[i].value).value);
      EmplaceMembers(acc, m);
      MembersOrigin(escapeUnicode, Emplace(acc, m), ms, i + 1, x);
      if x == m {
        assert ReadFrom(escapeUnicode, x, ms[i]);
      }
    }
  }

  lemma {:induction false} AscendingDistinct(ms: seq<Member>, i: nat, j: nat)
    requires Ascending(ms) && i < j < |ms|
    ensures Precedes(ms[i].key, ms[j].key) && ms[i].key != ms[j].key
  {
    hide Precedes;
    if i == 0 {
      assert ms[1..][j - 1] == ms[j];
      PrecedesIrreflexive(ms[0].key);
    } else {
      AscendingDistinct(ms[1..], i - 1, j - 1);
    }
  }

  /** An object that comes back unchanged has only members that do. */
  lemma ObjectKept(escapeUnicode: bool, ms: seq<Member>, l: nat)
    requires Ascending(ms) && l < |ms| && ReadMembers(escapeUnicode, [], ms, 0) == Ok(ms)
    ensures FaithfulText(escapeUnicode, ms[l].key)
    ensures ReadBack(escapeUnicode, ms[l].value) == Ok(ms[l].value)
  {
    hide ReadBack, ReadString, AllSurvive, DecodeAll, Weight, Ascending, ReadMembers, TotalWeight;
    assert ms[0..] == ms;
    MembersWeight(escapeUnicode, [], ms, 0);
    EmptyWeight();
    MembersOrigin(escapeUnicode, [], ms, 0, ms[l]);
    var j :| 0 <= j < |ms| && ReadFrom(escapeUnicode, ms[l], ms[j]);
    TextShrinks(escapeUnicode, ms[j].key);
    KeyCanonical(escapeUnicode, ms, j);
    TextComesBackIff(escapeUnicode, ms[j].key);
    if j < l {
      AscendingDistinct(ms, j, l);
    } else if l < j {
      AscendingDistinct(ms, l, j);
    }
  }

  lemma EmptyWeight()
    ensures TotalWeight([]) == 0
  {
  }

  lemma KeyCanonical(escapeUnicode: bool, ms: seq<Member>, j: nat)
    requires j < |ms| && ReadMembers(escapeUnicode, [], ms, 0) == Ok(ms)
    ensures Canonical(ms[j].key)
  {
    hide ReadBack, ReadString, ReadMembers, Canonical;
    MembersOrigin(escapeUnicode, [], ms, 0, ms[j]);
    var n :| 0 <= n < |ms| && ReadFrom(escapeUnicode, ms[j], ms[n]);
    TextShrinks(escapeUnicode, ms[n].key);
  }

  /** A key after all others is added at the end. */
  lemma {:induction false} EmplaceLast(ms: seq<Member>, m: Member)
    requires forall i :: 0 <= i < |ms| ==> Precedes(ms[i].key, m.key)
    ensures Emplace(ms, m) == ms + [m]
  {
    if ms != [] {
      PrecedesIrreflexive(m.key);
      if Precedes(m.key, ms[0].key) {
        PrecedesTransitive(m.key, ms[0].key, m.key);
      }
      EmplaceLast(ms[1..], m);
    }
  }

  lemma {:induction false} ObjectComesBack(escapeUnicode: bool, ms: seq<Member>, i: nat)
    requires Ascending(ms) && i <= |ms|
    requires forall m | m in ms :: ReadFrom(escapeUnicode, m, m)
    ensures ReadMembers(escapeUnicode, ms[..i], ms, i) == Ok(ms)
    decreases |ms| - i
  {
    hide ReadBack, ReadString, Ascending, Precedes, Emplace;
    MembersRead(escapeUnicode, ms[..i], ms, i);
    if i == |ms| {
      assert ms[..i] == ms;
    } else {
      assert ReadFrom(escapeUnicode, ms[i], ms[i]);
      forall j | 0 <= j < i
        ensures Precedes(ms[..i][j].key, ms[i].key)
      {
        AscendingDistinct(ms, j, i);
      }
      EmplaceLast(ms[..i], ms[i]);
      assert ms[..i] + [ms[i]] == ms[..i + 1];
      ObjectComesBack(escapeUnicode, ms, i + 1);
    }
  }

  // ---------- trees ----------

  lemma {:induction false} FaithfulIff(escapeUnicode: bool, t: Json)
    requires WellTyped(t) && !HasFloat(t)
    ensures ReadBack(escapeUnicode, t) == Ok(t) <==> Faithful(escapeUnicode, t)
    decreases t, 0
  {
    match t
    case Str(s) => TextComesBackIff(escapeUnicode, s);
    case Arr(vs) => ArrayFaithfulIff(escapeUnicode, vs);
    case Obj(ms) => ObjectFaithfulIff(escapeUnicode, ms);
    case _ =>
  }

  lemma {:induction false} ArrayFaithfulIff(escapeUnicode: bool, vs: seq<Json>)
    requires forall v | v in vs :: WellTyped(v) && !HasFloat(v)
    ensures ReadBack(escapeUnicode, Arr(vs)) == Ok(Arr(vs)) <==> forall v | v in vs :: Faithful(escapeUnicode, v)
    decreases vs, 1
  {
    ArrayRead(escapeUnicode, vs);
    hide Faithful, ReadBack, ReadElements, WellTyped, HasFloat;
    forall j | 0 <= j < |vs|
      ensures ReadBack(escapeUnicode, vs[j]) == Ok(vs[j]) <==> Faithful(escapeUnicode, vs[j])
    {
      FaithfulIff(escapeUnicode, vs[j]);
    }
    assert [] + vs[0..] == vs;
    ElementsKept(escapeUnicode, [], vs, 0);
    assert (forall v | v in vs :: Faithful(escapeUnicode, v)) <==>
           forall j :: 0 <= j < |vs| ==> Faithful(escapeUnicode, vs[j]);
  }

  lemma ArrayRead(escapeUnicode: bool, vs: seq<Json>)
    ensures ReadBack(escapeUnicode, Arr(vs)) == Ok(Arr(vs)) <==> ReadElements(escapeUnicode, [], vs, 0) == Ok(vs)
  {
  }

  lemma {:induction false} ObjectFaithfulIff(escapeUnicode: bool, ms: seq<Member>)
    requires Ascending(ms) && forall m | m in ms :: WellTyped(m.value) && !HasFloat(m.value)
    ensures ReadBack(escapeUnicode, Obj(ms)) == Ok(Obj(ms))
            <==> forall m | m in ms :: FaithfulText(escapeUnicode, m.key) && Faithful(escapeUnicode, m.value)
    decreases ms, 1
  {
    hide Faithful, Ascending, FaithfulText, ReadMembers, ReadString;
    forall m | m in ms
      ensures ReadFrom(escapeUnicode, m, m) <==> FaithfulText(escapeUnicode, m.key) && Faithful(escapeUnicode, m.value)
      ensures ReadBack(escapeUnicode, m.value) == Ok(m.value) <==> Faithful(escapeUnicode, m.value)
    {
      FaithfulIff(escapeUnicode, m.value);
      TextComesBackIff(escapeUnicode, m.key);
    }
    if ReadMembers(escapeUnicode, [], ms, 0) == Ok(ms) {
      forall l | 0 <= l < |ms|
        ensures FaithfulText(escapeUnicode, ms[l].key) && Faithful(escapeUnicode, ms[l].value)
      {
        ObjectKept(escapeUnicode, ms, l);
      }
    }
    if forall m | m in ms :: FaithfulText(escapeUnicode, m.key) && Faithful(escapeUnicode, m.value) {
      ObjectComesBack(escapeUnicode, ms, 0);
      assert ms[..0] == [];
    }
  }

  /** Parsing undoes dumping, for every indentation with white space and both escape
      modes, exactly on the faithful trees. */
  lemma RoundTripIff(st: Style, t: Json)
    requires SpaceIndent(st) && WellTyped(t) && !HasFloat(t) && Decodable(t)
    ensures Parse(Dumped(st, t)) == Ok(t) <==> Faithful(st.escapeUnicode, t)
  {
    hide Parse, Dumped, Faithful, ReadBack;
    DumpParses(st, t);
    FaithfulIff(st.escapeUnicode, t);
  }

  // ---------- strings given by their code points ----------

  lemma {:induction false} AppendedSurvive(escapeUnicode: bool, points: seq<CodePoint>)
    ensures AllSurvive(escapeUnicode, Append(points, End)) <==>
            forall i :: 0 <= i < |points| ==> Survives(escapeUnicode, points[i])
  {
    hide Survives;
    if points != [] {
      AppendedSurvive(escapeUnicode, points[1..]);
      assert forall i :: 0 < i < |points| ==> points[i] == points[1..][i - 1];
    }
  }

  /** A string made of code points comes back exactly when each of them survives. */
  lemma PointsFaithfulIff(escapeUnicode: bool, points: seq<CodePoint>)
    ensures FaithfulText(escapeUnicode, EncodeAll(points)) <==>
            forall i :: 0 <= i < |points| ==> Survives(escapeUnicode, points[i])
  {
    hide EncodeAll, DecodeAll, AllSurvive, Survives;
    EncodedIsCanonical(points);
    AppendedSurvive(escapeUnicode, points);
  }

  // ---------- what the parser accepts can be dumped ----------

  ghost predicate Encoded(bytes: seq<byte>) {
    exists points :: bytes == EncodeAll(points)
  }

  lemma {:induction false} EncodeAllSnoc(points: seq<CodePoint>, c: CodePoint)
    ensures EncodeAll(points + [c]) == EncodeAll(points) + Encode(c)
  {
    hide Encode;
    if points == [] {
      assert [c][1..] == [];
    } else {
      assert (points + [c])[1..] == points[1..] + [c];
      EncodeAllSnoc(points[1..], c);
    }
  }

  lemma EncodedMore(out: seq<byte>, c: CodePoint)
    requires Encoded(out)
    ensures Encoded(out + Encode(c))
  {
    hide EncodeAll, Encode;
    var points :| out == EncodeAll(points);
    EncodeAllSnoc(points, c);
  }

  /** An escape adds one encoded code point. */
  lemma EscapeEncoded(s: View) returns (c: CodePoint)
    requires ReadEscape(s).Ok?
    ensures ReadEscape(s).value.bytes == Encode(c)
  {
    var t := Advance(s).value;
    if Current(t) == 0x75 {
      c := ReadUnicode(t).value.code;
    } else {
      c := SimpleEscape(Current(t));
    }
  }

  lemma {:induction false} StringEncoded(out: seq<byte>, s: View)
    requires Encoded(out) && ScanString(out, s).Ok?
    ensures Encoded(ScanString(out, s).value.bytes)
    decreases Size(s)
  {
    hide Encoded, ReadEscape, Encode;
    var t := Advance(s).value;
    var c := Current(t);
    if c == 0x22 {
    } else if c != 0x5C {
      EncodedMore(out, c);
      StringEncoded(out + Encode(c), t);
    } else {
      var e := EscapeEncoded(t);
      EncodedMore(out, e);
      var next := ReadEscape(t).value;
      StringEncoded(out + next.bytes, next.view);
    }
  }

  /** Every string the reader gives is canonical and can be decoded to its end. */
  lemma ReadStringSound(s: View)
    requires ScanString([], s).Ok?
    ensures Canonical(ScanString([], s).value.bytes) && EndsWell(DecodeAll(ScanString([], s).value.bytes))
  {
    hide ScanString, EncodeAll, DecodeAll;
    NothingEncoded();
    StringEncoded([], s);
    var points :| ScanString([], s).value.bytes == EncodeAll(points);
    EncodedIsCanonical(points);
    assert EndsWell(Append(points, End));
  }

  lemma NothingEncoded()
    ensures Encoded([])
  {
    assert EncodeAll([]) == [];
  }

  /** Strings and keys are canonical and can be decoded; integers are not the one that
      overflows. */
  predicate Sound(t: Json) {
    match t
    case Int(i) => i != -0x8000_0000_0000_0000
    case Str(s) => Canonical(s) && EndsWell(DecodeAll(s))
    case Arr(vs) => forall v | v in vs :: Sound(v)
    case Obj(ms) => forall m | m in ms :: Canonical(m.key) && EndsWell(DecodeAll(m.key)) && Sound(m.value)
    case _ => true
  }

  lemma {:induction false} ValueSound(s: View)
    requires ParseValue(s).Ok?
    ensures Sound(ParseValue(s).value.value)
    decreases 2 * Size(s) + 1, 2
  {
    hide Sound, ParseToken, JsonScanner.Scan;
    TokenSound(Scan(s).value);
  }

  lemma {:induction false} TokenSound(sc: Scanned)
    requires sc.token == ValueString ==> Current(sc.view) == 0x22
    requires 0 <= sc.number <= INT64_MAX
    requires ParseToken(sc).Ok?
    ensures Sound(ParseToken(sc).value.value)
    decreases Work(sc), 1
  {
    hide Canonical, ScanString, ParseArray, ParseObject;
    if sc.token == ValueString {
      ReadStringSound(sc.view);
    } else if sc.token == BeginArray {
      ArraySound([], sc.view);
    } else if sc.token == BeginObject {
      ObjectSound([], sc.view);
    }
  }

  lemma {:induction false} ArraySound(vs: seq<Json>, s: View)
    requires forall v | v in vs :: Sound(v)
    requires ParseArray(vs, s).Ok?
    ensures Sound(ParseArray(vs, s).value.value)
    decreases 2 * Size(s) + 1, 0
  {
    hide ParseToken, JsonScanner.Scan, Canonical;
    var sc := Scan(s).value;
    if StartsValue(sc.token) {
      TokenSound(sc);
      var v := ParseToken(sc).value;
      var next := Scan(v.view).value;
      if next.token == ValueSeparator {
        ArraySound(vs + [v.value], next.view);
      }
    }
  }

  lemma EmplaceSound(ms: seq<Member>, m: Member)
    requires Sound(Obj(ms)) && Sound(m.value) && Canonical(m.key) && EndsWell(DecodeAll(m.key))
    ensures Sound(Obj(Emplace(ms, m)))
  {
    hide Canonical, DecodeAll, Emplace;
    EmplaceMembers(ms, m);
  }

  lemma {:induction false} ObjectSound(ms: seq<Member>, s: View)
    requires Sound(Obj(ms))
    requires ParseObject(ms, s).Ok?
    ensures Sound(ParseObject(ms, s).value.value)
    decreases 2 * Size(s) + 1, 0
  {
    hide ParseValue, JsonScanner.Scan, ScanString, Emplace, Sound, Canonical;
    var sc := Scan(s).value;
    if sc.token == ValueString {
      ReadStringSound(sc.view);
      var key := ScanString([], sc.view).value;
      var colon := Scan(key.view).value;
      if colon.token == NameSeparator {
        ValueSound(colon.view);
        var v := ParseValue(colon.view).value;
        var m := Member(key.bytes, v.value);
        EmplaceSound(ms, m);
        var next := Scan(v.view).value;
        if next.token == ValueSeparator {
          ObjectSound(Emplace(ms, m), next.view);
        }
      }
    }
  }

  lemma {:induction false} SoundDecodes(t: Json)
    requires Sound(t)
    ensures Decodable(t)
  {
    hide Canonical, DecodeAll;
    match t
    case Arr(vs) =>
      forall v | v in vs
        ensures Decodable(v)
      {
        SoundDecodes(v);
      }
    case Obj(ms) =>
      forall m | m in ms
        ensures Decodable(m.value)
      {
        SoundDecodes(m.value);
      }
    case _ =>
  }

  /** Every document that is accepted can be dumped again: of the conditions of
      `Faithful` only the survival of its code points is left open. */
  lemma AcceptedCanBeDumped(bytes: seq<byte>)
    requires Parse(bytes).Ok?
    ensures Sound(Parse(bytes).value) && Decodable(Parse(bytes).value)
  {
    hide Sound, Decodable, ParseValue;
    ValueSound(DecodeAll(bytes));
    SoundDecodes(Parse(bytes).value);
  }
}

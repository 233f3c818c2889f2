/** What the tokenizer makes of any text, whoever wrote it. */
module JsonTokens {
  import opened Outcomes
  import opened Encoding
  import opened JsonScanner
  import opened JsonLayout
  import opened JsonNumbers

  // ---------- white space and marks ----------

  /** Exactly blank, tab, line feed and carriage return are skipped. */
  lemma {:induction false} WhiteSpaceSkipped(bs: seq<CodePoint>, k: View)
    requires forall i :: 0 <= i < |bs| ==> bs[i] == 0x20 || bs[i] == 0x09 || bs[i] == 0x0A || bs[i] == 0x0D
    ensures !Append(bs, k).Bad? && SkipSpaces(Append(bs, k)) == SkipSpaces(k)
    decreases |bs|
  {
    if bs != [] {
      WhiteSpaceSkipped(bs[1..], k);
    }
  }

  lemma NotSkipped(s: View)
    requires s.Next? ==> s.head != 0x20 && s.head != 0x09 && s.head != 0x0A && s.head != 0x0D && s.head != 0x2F
    ensures SkipSpaces(s) == Ok(s)
  {
  }

  /** A slash that opens no comment is an error. */
  lemma LoneSlash(k: View)
    requires k.Next? ==> k.head != 0x2F && k.head != 0x2A
    ensures Scan(Next(0x2F, k)) == Err(Thrown)
  {
    assert SkipSpaces(Next(0x2F, k)) == SkipComments(Next(0x2F, k)) == Err(Thrown);
  }

  /** The six marks. */
  predicate Marks(c: CodePoint, token: Token) {
    || (c == 0x5B && token == BeginArray) || (c == 0x5D && token == EndArray)
    || (c == 0x7B && token == BeginObject) || (c == 0x7D && token == EndObject)
    || (c == 0x3A && token == NameSeparator) || (c == 0x2C && token == ValueSeparator)
  }

  lemma MarkScanned(c: CodePoint, token: Token, k: View)
    requires Marks(c, token)
    ensures Scan(Next(c, k)) == Ok(Scanned(token, false, 0, k))
  {
    NotSkipped(Next(c, k));
  }

  /** A quote announces a string and stays; the end of the input, and a NUL, are the end. */
  lemma OthersScanned(k: Codes)
    ensures Scan(Next(0x22, k)) == Ok(Scanned(ValueString, false, 0, Next(0x22, k)))
    ensures Scan(Next(0, k)) == Ok(Scanned(EndOfInput, false, 0, Next(0, k)))
    ensures Scan(End) == Ok(Scanned(EndOfInput, false, 0, End))
  {
  }

  /** A word is read, and only the low bytes of its letters are looked at. */
  lemma {:induction false} WordScan(text: seq<CodePoint>, token: Token, cs: seq<CodePoint>, k: View)
    requires (forall i :: 0 <= i < |text| ==> 0 < text[i] < 128) && |cs| == |text|
    requires forall i :: 0 <= i < |cs| ==> cs[i] % 256 == text[i]
    ensures !Append(cs, k).Bad?
    ensures ScanLiteral(text, token, Append(cs, k)) == Ok(Scanned(token, false, 0, k))
    decreases |text|
  {
    if text != [] {
      WordScan(text[1..], token, cs[1..], k);
    }
  }

  /** The first letter that does not fit is an error, and so is the end of the input. */
  lemma {:induction false} WordRefused(text: seq<CodePoint>, token: Token, cs: seq<CodePoint>, k: View)
    requires (forall i :: 0 <= i < |text| ==> 0 < text[i] < 128) && |cs| < |text|
    requires forall i :: 0 <= i < |cs| ==> cs[i] % 256 == text[i]
    requires k.Next? ==> k.head % 256 != text[|cs|]
    ensures !Append(cs, k).Bad?
    ensures ScanLiteral(text, token, Append(cs, k)) == Err(Thrown)
    decreases |cs|
  {
    if cs != [] {
      WordRefused(text[1..], token, cs[1..], k);
    }
  }

  /** The three words, letter by letter. */
  lemma WordsScanned(k: View)
    ensures Scan(Next(0x74, Next(0x72, Next(0x75, Next(0x65, k))))) == Ok(Scanned(LiteralTrue, false, 0, k))
    ensures Scan(Next(0x66, Next(0x61, Next(0x6C, Next(0x73, Next(0x65, k)))))) ==
            Ok(Scanned(LiteralFalse, false, 0, k))
    ensures Scan(Next(0x6E, Next(0x75, Next(0x6C, Next(0x6C, k))))) == Ok(Scanned(LiteralNull, false, 0, k))
  {
    TrueScanned(k);
    FalseScanned(k);
    NullScanned(k);
  }

  lemma FourLetters(t: seq<CodePoint>, k: Codes)
    requires |t| == 4
    ensures Append(t, k) == Next(t[0], Next(t[1], Next(t[2], Next(t[3], k))))
  {
    var t1, t2, t3 := t[1..], t[2..], t[3..];
    assert t1[1..] == t2 && t2[1..] == t3 && t3[1..] == [];
    assert Append(t3, k) == Next(t[3], k);
    assert Append(t1, k) == Next(t[1], Append(t2, k));
  }

  /** The first letter tells the word. */
  lemma WordBegins(s: View)
    requires s.Next?
    ensures s.head == 0x74 ==> Scan(s) == ScanLiteral(TRUE_TEXT, LiteralTrue, s)
    ensures s.head == 0x66 ==> Scan(s) == ScanLiteral(FALSE_TEXT, LiteralFalse, s)
    ensures s.head == 0x6E ==> Scan(s) == ScanLiteral(NULL_TEXT, LiteralNull, s)
  {
    hide ScanLiteral, ScanNumber, SkipComments;
  }

  lemma TrueScanned(k: View)
    ensures Scan(Next(0x74, Next(0x72, Next(0x75, Next(0x65, k))))) == Ok(Scanned(LiteralTrue, false, 0, k))
  {
    hide ScanLiteral, Scan;
    WordScan(TRUE_TEXT, LiteralTrue, TRUE_TEXT, k);
    FourLetters(TRUE_TEXT, k);
    WordBegins(Append(TRUE_TEXT, k));
  }

  lemma FalseScanned(k: View)
    ensures Scan(Next(0x66, Next(0x61, Next(0x6C, Next(0x73, Next(0x65, k)))))) ==
            Ok(Scanned(LiteralFalse, false, 0, k))
  {
    hide ScanLiteral, Scan;
    WordScan(FALSE_TEXT, LiteralFalse, FALSE_TEXT, k);
    FourLetters(FALSE_TEXT[1..], k);
    assert Append(FALSE_TEXT, k) == Next(0x66, Append(FALSE_TEXT[1..], k));
    WordBegins(Append(FALSE_TEXT, k));
  }

  lemma NullScanned(k: View)
    ensures Scan(Next(0x6E, Next(0x75, Next(0x6C, Next(0x6C, k))))) == Ok(Scanned(LiteralNull, false, 0, k))
  {
    hide ScanLiteral, Scan;
    WordScan(NULL_TEXT, LiteralNull, NULL_TEXT, k);
    FourLetters(NULL_TEXT, k);
    WordBegins(Append(NULL_TEXT, k));
  }

  /** A sign or a digit begins a number. */
  lemma NumberBegins(c: CodePoint, k: View)
    requires c == 0x2B || c == 0x2D || 0x30 <= c <= 0x39
    ensures Scan(Next(c, k)) == ScanNumber(Next(c, k))
  {
    hide ScanNumber, SkipComments;
  }

  /** Any other character is an error. */
  lemma UnexpectedThrows(c: CodePoint, k: Codes)
    requires c != 0 && c != 0x20 && c != 0x09 && c != 0x0A && c != 0x0D && c != 0x2F && c != 0x22
    requires c != 0x5B && c != 0x5D && c != 0x7B && c != 0x7D && c != 0x3A && c != 0x2C
    requires c != 0x74 && c != 0x66 && c != 0x6E && c != 0x2B && c != 0x2D && !(0x30 <= c <= 0x39)
    ensures Scan(Next(c, k)) == Err(Thrown)
  {
    NotSkipped(Next(c, k));
  }

  // ---------- numbers ----------

  /** A sign with no digit behind it fails an assertion. */
  lemma LoneSign(c: CodePoint, k: View)
    requires (c == 0x2B || c == 0x2D) && Stops(k)
    ensures ScanNumber(Next(c, k)) == Err(Aborted)
  {
  }

  predicate HasPoint(k: Codes) {
    k.Next? && k.head == 0x2E
  }

  predicate HasExponent(k: Codes) {
    k.Next? && (k.head == 0x65 || k.head == 0x45)
  }

  predicate NoDigit(k: Codes) {
    k.Next? ==> !(0x30 <= k.head % 256 <= 0x39)
  }

  lemma {:induction false} DigitsThen(negative: bool, n: nat, v: View, ds: seq<byte>, k: View)
    requires AllDigits(ds) && (HasPoint(k) || HasExponent(k)) && n <= INT64_MAX
    requires v.Next? && v.tail == Append(ds, k)
    ensures ScanInteger(negative, n, v) ==
            if Value(n, ds) > INT64_MAX then Err(Overflowed) else ScanFloat(negative, Value(n, ds), k)
    decreases |ds|
  {
    hide ScanFloat;
    if ds != [] {
      var m := 10 * n + (ds[0] - 0x30);
      if m <= INT64_MAX {
        DigitsThen(negative, m, v.tail, ds[1..], k);
      }
    }
  }

  /** Digits in front of a point or an exponent: the integer part may overflow; a 0 takes
      only a point. */
  lemma WholePartScanned(sign: seq<byte>, ds: seq<byte>, k: View)
    requires IsSign(sign) && ds != [] && AllDigits(ds) && (HasPoint(k) || HasExponent(k))
    ensures var s := Append(sign, Append(ds, k));
            && !s.Bad?
            && (ds[0] != 0x30 ==>
                  ScanNumber(s) == if Value(0, ds) > INT64_MAX then Err(Overflowed)
                                   else ScanFloat(sign == [0x2D], Value(0, ds), k))
            && (ds == [0x30] ==>
                  ScanNumber(s) == if HasPoint(k) then ScanFloat(sign == [0x2D], 0, k) else Err(Thrown))
  {
    var digits: View := Append(ds, k);
    SignRead(sign, digits);
    if ds[0] != 0x30 {
      DigitsThen(sign == [0x2D], ds[0] - 0x30, digits, ds[1..], k);
      UnsignedRead(sign, digits);
    } else if ds == [0x30] {
      assert ds[1..] == [];
      ZeroThen(sign, k);
    }
    hide ScanNumber, ScanInteger, ScanFloat;
  }

  lemma ZeroThen(sign: seq<byte>, k: View)
    requires IsSign(sign) && (HasPoint(k) || HasExponent(k))
    ensures !Append(sign, Next(0x30, k)).Bad?
    ensures ScanNumber(Append(sign, Next(0x30, k))) ==
            if HasPoint(k) then ScanFloat(sign == [0x2D], 0, k) else Err(Thrown)
  {
    SignRead(sign, Next(0x30, k));
    hide ScanInteger, ScanFloat;
  }

  lemma {:induction false} FractionScan(negative: bool, n: int, s: View, ds: seq<byte>, k: View)
    requires AllDigits(ds) && NoDigit(k) && s.Next? && s.tail == Append(ds, k)
    ensures ScanFraction(negative, n, s) ==
            if HasExponent(k) then ScanExponent(negative, n, k) else Ok(Scanned(ValueFloat, negative, n, k))
    decreases |ds|
  {
    hide ScanExponent;
    if ds != [] {
      FractionScan(negative, n, s.tail, ds[1..], k);
    }
  }

  lemma {:induction false} DigitsSkipped(negative: bool, n: int, s: View, ds: seq<byte>, k: View)
    requires AllDigits(ds) && NoDigit(k) && s.Next? && s.tail == Append(ds, k)
    ensures SkipDigits(negative, n, s) == Ok(Scanned(ValueFloat, negative, n, k))
    decreases |ds|
  {
    if ds != [] {
      DigitsSkipped(negative, n, s.tail, ds[1..], k);
    }
  }

  /** A fraction: a point and at least one digit; an exponent may follow. */
  lemma FloatScanned(negative: bool, n: int, ds: seq<byte>, k: View)
    requires AllDigits(ds) && NoDigit(k)
    ensures !Append(ds, k).Bad?
    ensures ScanFloat(negative, n, Next(0x2E, Append(ds, k))) ==
            if ds == [] then Err(Thrown)
            else if HasExponent(k) then ScanFloat(negative, n, k)
            else Ok(Scanned(ValueFloat, negative, n, k))
  {
    if ds != [] {
      FractionScan(negative, n, Append(ds, k), ds[1..], k);
    }
    hide ScanExponent;
  }

  /** An exponent: the letter, and digits of which the first is not 0, or a sign and any
      digits. */
  lemma ExponentScanned(negative: bool, n: int, e: CodePoint, sign: seq<byte>, ds: seq<byte>, k: View)
    requires (e == 0x65 || e == 0x45) && IsSign(sign) && AllDigits(ds) && ds != [] && NoDigit(k)
    ensures !Append(sign, Append(ds, k)).Bad?
    ensures ScanFloat(negative, n, Next(e, Append(sign, Append(ds, k)))) ==
            if sign == [] && ds[0] == 0x30 then Err(Thrown) else Ok(Scanned(ValueFloat, negative, n, k))
  {
    var digits: View := Append(ds, k);
    SignRead(sign, digits);
    DigitsSkipped(negative, n, digits, ds[1..], k);
    hide SkipDigits;
  }

  /** Anything else behind the letter is an error. */
  lemma ExponentRefused(negative: bool, n: int, e: CodePoint, k: View)
    requires (e == 0x65 || e == 0x45) && NoDigit(k) && (k.Next? ==> k.head != 0x2B && k.head != 0x2D)
    ensures ScanFloat(negative, n, Next(e, k)) == Err(Thrown)
  {
  }

  /** Behind the sign of an exponent one character of any kind is taken for a digit. */
  lemma ExponentSwallows(negative: bool, n: int, c: CodePoint, k: View)
    requires Stops(k)
    ensures ScanFloat(negative, n, Next(0x65, Next(0x2D, Next(c, k)))) == Ok(Scanned(ValueFloat, negative, n, k))
  {
    DigitsSkipped(negative, n, Next(c, k), [], k);
    hide SkipDigits;
  }

  lemma WideTaken(s: View)
    requires s.Next? && s.head == 0x131
    ensures ScanInteger(false, 1, Next(0x31, s)) == ScanInteger(false, 10 + 0x101, s)
  {
    hide ScanFloat;
  }

  /** Digits are looked for in the low byte of a code point only. */
  lemma WideDigit(k: View)
    requires Stops(k)
    ensures ScanNumber(Next(0x31, Next(0x131, k))) == Ok(Scanned(ValueInteger, false, 10 + 0x101, k))
  {
    var s: View := Next(0x131, k);
    DigitsScan(false, 10 + 0x101, s, [], k);
    UnsignedRead([], Next(0x31, s));
    WideTaken(s);
    hide ScanInteger, ScanNumber;
  }
}

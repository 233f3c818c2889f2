/** The reader on the text of an integer. */
module JsonNumbers {
  import opened Outcomes
  import opened Encoding
  import opened JsonScanner
  import opened JsonLayout

  /** What may follow a value in a dump: the end, white space or punctuation. */
  predicate Delimited(k: Codes) {
    k.Next? ==> IsSpace(k.head) || k.head == 0x2C || k.head == 0x5D || k.head == 0x7D
  }

  predicate AllDigits(ds: seq<byte>) {
    forall i :: 0 <= i < |ds| ==> 0x30 <= ds[i] <= 0x39
  }

  /** The number `n` with the digits `ds` after it. */
  function Value(n: nat, ds: seq<byte>): (m: nat)
    requires AllDigits(ds)
    ensures n <= m
    decreases |ds|
  {
    if ds == [] then n else Value(10 * n + (ds[0] - 0x30), ds[1..])
  }

  lemma {:induction false} ValueSnoc(n: nat, ds: seq<byte>, d: byte)
    requires AllDigits(ds) && 0x30 <= d <= 0x39
    ensures Value(n, ds + [d]) == 10 * Value(n, ds) + (d - 0x30)
    decreases |ds|
  {
    if ds == [] {
      assert [d][1..] == [];
    } else {
      assert (ds + [d])[1..] == ds[1..] + [d];
      ValueSnoc(10 * n + (ds[0] - 0x30), ds[1..], d);
    }
  }

  /** Decimal text denotes its number, and only that of 0 starts with a 0. */
  lemma {:induction false} DecimalDenotes(n: nat)
    ensures AllDigits(DecimalNat(n)) && DecimalNat(n) != []
    ensures Value(0, DecimalNat(n)) == n
    ensures n > 0 ==> DecimalNat(n)[0] != 0x30
  {
    if n >= 10 {
      DecimalDenotes(n / 10);
      ValueSnoc(0, DecimalNat(n / 10), Digit(n % 10));
    }
  }

  ghost predicate Numbered(r: Outcome<Scanned>, negative: bool, n: nat, k: View) {
    r == if n > INT64_MAX then Err(Overflowed) else Ok(Scanned(ValueInteger, negative, n, k))
  }

  /** Nothing here goes on with a number. */
  predicate Stops(k: Codes) {
    k.Next? ==> !(0x30 <= k.head % 256 <= 0x39) && k.head != 0x2E && k.head != 0x65 && k.head != 0x45
  }

  lemma {:induction false} DigitsScan(negative: bool, n: nat, v: View, ds: seq<byte>, k: View)
    requires AllDigits(ds) && Stops(k) && n <= INT64_MAX
    requires v.Next? && v.tail == Append(ds, k)
    ensures Numbered(ScanInteger(negative, n, v), negative, Value(n, ds), k)
    decreases |ds|
  {
    if ds != [] {
      var m := 10 * n + (ds[0] - 0x30);
      if m <= INT64_MAX {
        DigitsScan(negative, m, v.tail, ds[1..], k);
      }
    }
  }

  /** A plus or a minus, or none. */
  predicate IsSign(sign: seq<byte>) {
    sign == [] || sign == [0x2B] || sign == [0x2D]
  }

  /** Digits behind an optional sign: their number, unless it overflows. A leading zero is
      a number of its own, whatever digits follow it. */
  lemma IntegerScanned(sign: seq<byte>, ds: seq<byte>, k: View)
    requires IsSign(sign) && ds != [] && AllDigits(ds) && Stops(k)
    ensures var s := Append(sign, Append(ds, k));
            && !s.Bad?
            && (ds[0] != 0x30 ==> Numbered(ScanNumber(s), sign == [0x2D], Value(0, ds), k))
            && !Append(ds[1..], k).Bad?
            && (ds[0] == 0x30 ==> Numbered(ScanNumber(s), sign == [0x2D], 0, Append(ds[1..], k)))
  {
    var digits: View := Append(ds, k);
    SignRead(sign, digits);
    if ds[0] != 0x30 {
      DigitsScan(sign == [0x2D], ds[0] - 0x30, digits, ds[1..], k);
      UnsignedRead(sign, digits);
    } else {
      ZeroRead(sign, Append(ds[1..], k));
    }
    hide ScanNumber, ScanInteger;
  }

  lemma UnsignedRead(sign: seq<byte>, s: View)
    requires IsSign(sign) && s.Next? && 0x31 <= s.head <= 0x39
    ensures !Append(sign, s).Bad?
    ensures ScanNumber(Append(sign, s)) == ScanInteger(sign == [0x2D], s.head - 0x30, s)
  {
    SignRead(sign, s);
    hide ScanInteger, ScanFloat;
  }

  lemma ZeroRead(sign: seq<byte>, k: View)
    requires IsSign(sign) && (k.Next? ==> k.head != 0x2E && k.head != 0x65 && k.head != 0x45)
    ensures !Append(sign, Next(0x30, k)).Bad?
    ensures ScanNumber(Append(sign, Next(0x30, k))) == Ok(Scanned(ValueInteger, sign == [0x2D], 0, k))
  {
    SignRead(sign, Next(0x30, k));
    hide ScanInteger, ScanFloat;
  }

  lemma SignRead(sign: seq<byte>, k: View)
    requires IsSign(sign) && k.Next?
    ensures Append(sign, k) == if sign == [] then k else Next(sign[0], k)
  {
    if sign != [] {
      assert sign[1..] == [];
    }
  }

  /** The text of an integer is read as that integer, unless its magnitude does not
      fit: only -2^63 among the 64-bit integers. */
  lemma DecimalScan(i: int, k: View)
    requires Delimited(k)
    ensures var v := Append(Decimal(i), k);
            v.Next? && (v.head == 0x2D || 0x30 <= v.head <= 0x39)
            && Numbered(ScanNumber(v), i < 0, if i < 0 then -i else i, k)
  {
    var n, sign := if i < 0 then -i else i, if i < 0 then [0x2D] else [];
    var ds := DecimalNat(n);
    DecimalDenotes(n);
    IntegerScanned(sign, ds, k);
    SignRead(sign, Append(ds, k));
    hide ScanNumber;
    if i < 0 {
      assert ([0x2D] + ds)[1..] == ds;
    }
    if n == 0 {
      assert ds == [0x30] && ds[1..] == [];
    }
  }
}

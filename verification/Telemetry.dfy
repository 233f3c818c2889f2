/** A data element and its report form (DataClassItem in DataClass.hpp), for the formats
    BCD, HEX and CHAR. */
module Telemetry {
  import opened Encoding
  import opened Codecs

  datatype Format = Bcd | Hex | Chars

  /** `len` and `fl` count decimal digits. */
  datatype Config = Config(id: nat, len: nat, fl: nat, format: Format)

  /** DATA_INVALID_VALUE marks an empty number. */
  const INVALID: int := 0x7FFF_FFFF_FFFF_FFFF
  const I64: int := 0x8000_0000_0000_0000

  function Repeated(b: byte, n: nat): seq<byte> {
    seq(n, _ => b)
  }

  datatype Item = Item(config: Config, val: int, hex: seq<byte>, chars: seq<byte>) {

    /** `len()`, in bytes. */
    function Size(): nat {
      (config.len + 1) / 2
    }

    /** What the configuration tables and the types guarantee. */
    ghost predicate Valid() {
      && config.id < 0x1_0000 && config.fl < 8
      && -I64 <= val < I64
      && (config.format.Hex? ==> Size() <= |hex|)
      && (config.format.Chars? ==> Size() < |chars|)
    }

    function Magnitude(): nat {
      if val < 0 then -val else val
    }

    predicate IsZero()
      requires Valid()
    {
      Size() == 0 ||
      match config.format
      case Bcd => val == INVALID
      case Hex => forall i :: 0 <= i < Size() ==> hex[i] == 0xFF
      case Chars => chars[0] == 0
    }

    /** `_to_report` */
    function Payload(): (d: seq<byte>)
      requires Valid()
      ensures |d| == Size()
    {
      match config.format
      case Bcd => BigPairs(Magnitude(), Size())
      case Hex => hex[..Size()]
      case Chars => chars[..Size()]
    }

    /** A number below zero takes one more byte, which is 0xFF. */
    predicate Negative()
      requires Valid()
    {
      !IsZero() && config.format.Bcd? && val < 0
    }

    /** `reportlen` and `negreportlen`: the size in bytes above the decimals, in a byte. */
    function PackedLength(): byte
      requires Valid()
    {
      ((if Negative() then Size() + 1 else Size()) * 8 + config.fl) % 256
    }

    function Marked(): seq<byte>
      requires Valid()
    {
      if IsZero() then Repeated(0xFF, Size())
      else if Negative() then [0xFF] + Payload()
      else Payload()
    }

    /** `toreport`: identifier, packed length, contents. Of an identifier only the low
        byte is written, after an 0xFF if it is above 0xFF00. */
    function Report(): seq<byte>
      requires Valid()
    {
      if config.len == 0 then []
      else (if config.id > 0xFF00 then [0xFF] else []) + ([config.id % 256, PackedLength()] + Marked())
    }

    // ---------- reading a report ----------

    /** `fromreport`: the item as the report in the buffer `b` leaves it. */
    function Restored(b: seq<byte>): Item
      requires Valid() && |b| >= BUFFER
    {
      RestoredFrom(if b[0] == 0xFF then b[1..] else b)
    }

    /** The same without the 0xFF in front of a long identifier. A number with the extra
        byte of a negative one loses its sign. */
    function RestoredFrom(p: seq<byte>): Item
      requires Valid() && |p| >= BUFFER - 1
    {
      var rsize := (p[1] as int) / 8;
      var n := if Size() < rsize then Size() else rsize;
      match config.format
      case Bcd =>
        this.(val := Signed(BigBcd(if rsize > Size() && p[2] == 0xFF then p[3..2 + rsize] else p[2..2 + n])))
      case Hex => this.(hex := p[2..2 + n] + hex[n..])
      case Chars => this.(chars := p[2..2 + n] + [0] + chars[n + 1..])
    }

    /** This item with the value that the report of `x` carries. */
    function Showing(x: Item): Item
      requires Valid() && x.Valid() && x.config == config
    {
      match config.format
      case Bcd => this.(val := LowPairs(x.Magnitude(), Size()))
      case Hex => this.(hex := x.hex[..Size()] + hex[Size()..])
      case Chars => this.(chars := x.chars[..Size()] + [0] + chars[Size() + 1..])
    }

    /** The packed length has five bits for the size. */
    predicate Packs()
      requires Valid()
    {
      (if Negative() then Size() + 1 else Size()) < 32
    }
  }

  /** An identifier that can be told from its bytes in a report. */
  predicate Tellable(id: nat) {
    id < 0xFF || 0xFF00 < id <= 0xFFFF
  }

  /** Size of the buffer a report is read from. */
  const BUFFER: int := 500

  /** A 64-bit value as a signed one. */
  function Signed(x: int): int {
    if x >= I64 then x - U64 else x
  }

  /** The size can be told from the packed length exactly when it fits. */
  lemma PackedBack(x: Item)
    requires x.Valid()
    ensures (x.PackedLength() as int) / 8 == (if x.Negative() then x.Size() + 1 else x.Size()) <==> x.Packs()
  {
  }

  /** The decimals always can be told from it. */
  lemma DecimalsPacked(x: Item)
    requires x.Valid()
    ensures (x.PackedLength() as int) % 8 == x.config.fl
  {
    hide Item.IsZero;
    PackedModulo(x.Size(), x.config.fl);
    PackedModulo(x.Size() + 1, x.config.fl);
  }

  lemma PackedModulo(n: nat, fl: nat)
    requires fl < 8
    ensures (n * 8 + fl) % 256 % 8 == fl
  {
    var q := (n * 8 + fl) / 256;
    assert (n * 8 + fl) % 256 == 8 * (n - 32 * q) + fl;
  }

  /** The bytes of a report: an 0xFF and the low byte of an identifier above 0xFF00, or the
      low byte alone, then a byte whose upper five bits are the size of the contents and
      whose lower three are the decimals, then as many bytes of contents. */
  lemma ReportShape(x: Item)
    requires x.Valid() && x.config.len > 0 && x.Packs()
    ensures var r, at := x.Report(), if x.config.id > 0xFF00 then 1 else 0;
            && |r| == at + 2 + (r[at + 1] as int) / 8
            && (at == 1 ==> r[0] == 0xFF)
            && r[at] == x.config.id % 256
            && (r[at + 1] as int) % 8 == x.config.fl
            && (r[at + 1] as int) / 8 == x.Size() + (if x.Negative() then 1 else 0)
            && r[at + 2..] == x.Marked()
  {
    PackedBack(x);
    DecimalsPacked(x);
    SizeMarked(x);
    ReportParts(x);
    hide Item.PackedLength, Item.Marked, Item.Report, Item.IsZero, Item.Packs;
    var head := [x.config.id % 256, x.PackedLength()];
    if x.config.id > 0xFF00 {
      assert ([0xFF] + head + x.Marked())[3..] == x.Marked();
    } else {
      assert ([] + head + x.Marked())[2..] == x.Marked();
    }
  }

  lemma PairsOf(v: nat, n: nat, high: nat, low: nat)
    requires n > 0 && v == 100 * high + low && low < 100
    ensures BigPairs(v, n) == BigPairs(high, n - 1) + [PairByte(low)] && BigPairs(high, 0) == []
  {
    hide PairByte;
    assert v / 100 == high && v % 100 == low;
  }

  lemma FourOf(p: seq<byte>, q: seq<byte>, r: seq<byte>, t: seq<byte>, a: byte, b: byte, c: byte, d: byte)
    requires p == [] + [a] && q == p + [b] && r == q + [c] && t == r + [d]
    ensures t == [a, b, c, d]
  {
  }

  lemma WaterBytes()
    ensures PairByte(0) == 0x00 && PairByte(12) == 0x12 && PairByte(34) == 0x34
  {
  }

  lemma FourPairs()
    ensures BigPairs(1234, 4) == [0x00, 0x00, 0x12, 0x34]
  {
    hide BigPairs, PairByte;
    WaterBytes();
    PairsOf(1234, 4, 12, 34);
    PairsOf(12, 3, 0, 12);
    PairsOf(0, 2, 0, 0);
    PairsOf(0, 1, 0, 0);
    FourOf(BigPairs(0, 1), BigPairs(0, 2), BigPairs(12, 3), BigPairs(1234, 4), 0x00, 0x00, 0x12, 0x34);
  }

  lemma WaterLevelMarked(x: Item)
    requires x.config == Config(0x39, 7, 3, Bcd) && x.val == 1234
    ensures x.Valid() && x.Marked() == [0x00, 0x00, 0x12, 0x34]
    ensures x.PackedLength() == 0x23
  {
    FourPairs();
    hide BigPairs;
    assert x.Size() == 4 && !x.IsZero();
  }

  /** The water level of 1.234 m, with seven digits of which three are decimals. */
  lemma WaterLevelReport(x: Item)
    requires x.config == Config(0x39, 7, 3, Bcd) && x.val == 1234
    ensures x.Valid() && x.Report() == [0x39, 0x23, 0x00, 0x00, 0x12, 0x34]
  {
    WaterLevelMarked(x);
    hide Item.Marked, Item.PackedLength;
    ReportParts(x);
    hide Item.Report;
    assert [] + [0x39, 0x23] + x.Marked() == [0x39, 0x23, 0x00, 0x00, 0x12, 0x34];
  }

  /** What makes an item empty: bytes that are all 0xFF, a text that ends at once, or the
      number that stands for none. */
  lemma EmptyIff(x: Item)
    requires x.Valid() && x.Size() > 0
    ensures x.IsZero() <==>
            match x.config.format
            case Bcd => x.val == 0x7FFF_FFFF_FFFF_FFFF
            case Hex => x.hex[..x.Size()] == seq(x.Size(), _ => 0xFF as byte)
            case Chars => x.Payload()[0] == 0
  {
    if x.config.format.Hex? {
      var ff: seq<byte> := seq(x.Size(), _ => 0xFF as byte);
      assert x.hex[..x.Size()] == ff <==> forall i :: 0 <= i < x.Size() ==> x.hex[i] == ff[i];
    }
  }

  /** The report of an empty item, read again: HEX bytes are empty, a text is not. */
  lemma EmptyReportRead(x: Item, y: Item, p: seq<byte>)
    requires x.Valid() && x.IsZero() && x.Size() > 0 && x.Packs() && y.Valid() && y.config == x.config
    requires !x.config.format.Bcd? && |p| >= BUFFER - 1 && Holds(x, p) && y.RestoredFrom(p).Valid()
    ensures y.RestoredFrom(p).IsZero() <==> x.config.format.Hex?
  {
    PackedBack(x);
    HeldAt(x, p);
    hide Item.PackedLength;
    var n := x.Size();
    var ff := x.Marked();
    assert p[2..2 + n] == ff;
    forall i | 0 <= i < n
      ensures y.RestoredFrom(p).Payload()[i] == 0xFF
    {
      assert p[2..2 + n][i] == ff[i] == 0xFF;
    }
  }

  /** An empty number is reported as bytes 0xFF, which come back as a number: 165 for each
      byte, in base 100. */
  lemma EmptyNumberRead(x: Item, y: Item, p: seq<byte>)
    requires x.Valid() && x.IsZero() && x.config.format.Bcd? && 0 < x.Size() <= 9
    requires y.Valid() && y.config == x.config && |p| >= BUFFER - 1 && Holds(x, p)
    ensures 99 * y.RestoredFrom(p).val == 165 * (Pow100(x.Size()) - 1)
    ensures !y.RestoredFrom(p).IsZero()
  {
    PackedBack(x);
    HeldAt(x, p);
    FullPairs(x.Size());
    PowerBound(x.Size());
    hide Item.PackedLength, Item.Packs, BigBcd, Pow100;
    assert p[2..2 + x.Size()] == Repeated(0xFF, x.Size());
  }

  lemma {:induction false} FullPairs(n: nat)
    requires n <= 9
    ensures 99 * BigBcd(Repeated(0xFF, n)) == 165 * (Pow100(n) - 1)
  {
    var d := Repeated(0xFF, n);
    if n > 0 {
      FullPairs(n - 1);
      PowerBound(n);
      assert d[..n - 1] == Repeated(0xFF, n - 1);
      StepFits(BigBcd(d[..n - 1]), 0xFF);
      hide BcdStep, Pow100, Pair;
    }
  }

  lemma {:induction false} PowerBound(n: nat)
    requires n <= 9
    ensures Pow100(n) <= 1_000_000_000_000_000_000
    decreases 9 - n
  {
    if n == 9 {
      assert Pow100(4) == 100_000_000;
    } else {
      PowerBound(n + 1);
    }
  }

  /** A 64-bit value, taken as signed, is the same modulo 2^64. */
  lemma SignedIs(x: int)
    requires 0 <= x < U64
    ensures -I64 <= Signed(x) < I64 && (Signed(x) - x) % U64 == 0
  {
  }

  /** The number that comes back is the one reported exactly when that is not negative
      and has no more digits than there is room for. */
  lemma NumberKeptIff(x: Item, y: Item)
    requires x.Valid() && y.Valid() && y.config == x.config && x.config.format.Bcd?
    ensures y.Showing(x).val == x.val <==> 0 <= x.val < Pow100(x.Size())
    ensures x.Magnitude() < Pow100(x.Size()) ==> y.Showing(x).val == x.Magnitude()
  {
    LowPairsIsModulo(x.Magnitude(), x.Size());
  }

  /** Whatever is read, the item stays a proper one. */
  lemma RestoredValid(y: Item, b: seq<byte>)
    requires y.Valid() && |b| >= BUFFER
    ensures y.Restored(b).Valid() && y.Restored(b).config == y.config
  {
    hide BigBcd;
  }

  /** A report without its prefix, at the front of a buffer. */
  ghost predicate Holds(x: Item, p: seq<byte>)
    requires x.Valid()
  {
    [x.config.id % 256, x.PackedLength()] + x.Marked() <= p
  }

  /** The report of an item, read into any item of the same configuration, carries over
      its value: a number modulo the digits there is room for, without its sign. */
  lemma ReportRestores(x: Item, y: Item, b: seq<byte>)
    requires x.Valid() && x.val > -I64 && y.Valid() && y.config == x.config
    requires !x.IsZero() && x.Packs() && Tellable(x.config.id)
    requires |b| >= BUFFER && x.Report() <= b
    ensures y.Restored(b) == y.Showing(x)
  {
    hide Item.PackedLength, Item.Marked;
    var p := if b[0] == 0xFF then b[1..] else b;
    assert Holds(x, p) by {
      if x.config.id > 0xFF00 {
        assert x.Report()[1..] == [x.config.id % 256, x.PackedLength()] + x.Marked();
      }
    }
    BodyRestores(x, y, p);
  }

  /** Whatever item a report is read into, it leaves there nothing but what the report
      says: the rest of the buffer does not matter. */
  lemma SameReading(x: Item, z: Item, p: seq<byte>, q: seq<byte>)
    requires x.Valid() && !x.IsZero() && x.Packs() && z.Valid()
    requires |p| >= BUFFER - 1 && |q| >= BUFFER - 1 && Holds(x, p) && Holds(x, q)
    ensures z.RestoredFrom(p) == z.RestoredFrom(q)
  {
    PackedBack(x);
    HeldAt(x, p);
    HeldAt(x, q);
    SizeMarked(x);
    hide Item.PackedLength, Item.IsZero, Item.Packs, Item.Negative, Item.Valid, BigBcd, Holds;
    var r := |x.Marked()|;
    var n := if z.Size() < r then z.Size() else r;
    SameFront(p, q, r, n);
    hide Item.Marked;
  }

  lemma SizeMarked(x: Item)
    requires x.Valid()
    ensures |x.Marked()| == if x.Negative() then x.Size() + 1 else x.Size()
  {
    hide Item.Payload;
  }

  lemma SameFront(p: seq<byte>, q: seq<byte>, r: nat, n: nat)
    requires 2 + r <= |p| && 2 + r <= |q| && n <= r && p[2..2 + r] == q[2..2 + r]
    ensures p[2..2 + n] == q[2..2 + n]
    ensures r > 0 ==> p[2] == q[2] && p[3..2 + r] == q[3..2 + r]
  {
    assert p[2..2 + n] == p[2..2 + r][..n];
    assert q[2..2 + n] == q[2..2 + r][..n];
    if r > 0 {
      assert p[2] == p[2..2 + r][0] && q[2] == q[2..2 + r][0];
      assert p[3..2 + r] == p[2..2 + r][1..] && q[3..2 + r] == q[2..2 + r][1..];
    }
  }

  /** The report of a number, read into a number of another size: a smaller one takes the
      leading digits only. */
  lemma NumberElsewhere(x: Item, z: Item, p: seq<byte>)
    requires x.Valid() && z.Valid() && x.config.format.Bcd? && z.config.format.Bcd?
    requires !x.IsZero() && 0 <= x.val && x.Packs() && |p| >= BUFFER - 1 && Holds(x, p)
    ensures z.RestoredFrom(p).val ==
            if z.Size() >= x.Size() then LowPairs(x.val, x.Size())
            else LowPairs(HighPairs(x.val, x.Size() - z.Size()), z.Size())
  {
    PackedBack(x);
    HeldAt(x, p);
    hide Item.PackedLength, Item.IsZero, Item.Marked, Item.RestoredFrom, BigBcd, LowPairs, Holds;
    PlainHeld(x, p);
    if z.Size() >= x.Size() {
      NumberWider(x, z, p);
    } else {
      NumberNarrower(x, z, p);
    }
  }

  lemma NumberWider(x: Item, z: Item, p: seq<byte>)
    requires x.Valid() && z.Valid() && x.config.format.Bcd? && z.config.format.Bcd? && x.Size() <= z.Size()
    requires 0 <= x.val && |p| >= BUFFER - 1 && (p[1] as int) / 8 == x.Size()
    requires 2 + x.Size() <= |p| && p[2..2 + x.Size()] == BigPairs(x.val, x.Size())
    ensures z.RestoredFrom(p).val == LowPairs(x.val, x.Size())
  {
    hide BigBcd, BigPairs, LowPairs;
    BigPairsRead(x.val, x.Size());
  }

  lemma NumberNarrower(x: Item, z: Item, p: seq<byte>)
    requires x.Valid() && z.Valid() && x.config.format.Bcd? && z.config.format.Bcd? && x.Size() > z.Size()
    requires 0 <= x.val && |p| >= BUFFER - 1 && (p[1] as int) / 8 == x.Size()
    requires 2 + x.Size() <= |p| && p[2..2 + x.Size()] == BigPairs(x.val, x.Size())
    ensures z.RestoredFrom(p).val == LowPairs(HighPairs(x.val, x.Size() - z.Size()), z.Size())
  {
    hide BigBcd, BigPairs, LowPairs, HighPairs;
    var n, m := x.Size(), z.Size();
    FirstPair(x.val, n, p);
    HighPairsSmaller(x.val, n - m);
    BigPairsFront(x.val, n, m);
    BigPairsRead(HighPairs(x.val, n - m), m);
    assert p[2..2 + m] == p[2..2 + n][..m];
  }

  /** The report of bytes or of a text, read into an item of another size: as many bytes as
      both have, a text ended behind them, and the rest as before. */
  lemma BytesElsewhere(x: Item, z: Item, p: seq<byte>)
    requires x.Valid() && z.Valid() && !x.config.format.Bcd? && z.config.format == x.config.format
    requires !x.IsZero() && x.Packs() && |p| >= BUFFER - 1 && Holds(x, p)
    ensures var n := if z.Size() < x.Size() then z.Size() else x.Size();
            z.RestoredFrom(p) ==
            if z.config.format.Hex? then z.(hex := x.hex[..n] + z.hex[n..])
            else z.(chars := x.chars[..n] + [0] + z.chars[n + 1..])
  {
    PackedBack(x);
    HeldAt(x, p);
    PlainHeld(x, p);
    hide Item.PackedLength, Item.Marked, Item.Packs, Holds;
    var n := if z.Size() < x.Size() then z.Size() else x.Size();
    assert p[2..2 + n] == p[2..2 + x.Size()][..n];
    assert x.Payload()[..n] == if x.config.format.Hex? then x.hex[..n] else x.chars[..n];
  }

  /** Decimal bytes never look like the mark of a negative number. */
  lemma FirstPair(v: nat, n: nat, p: seq<byte>)
    requires v < U64 && n > 0 && 2 + n <= |p| && p[2..2 + n] == BigPairs(v, n)
    ensures p[2] != 0xFF
  {
    BigPairsDecimal(v, n);
    assert p[2] == p[2..2 + n][0];
  }

  lemma BodyRestores(x: Item, y: Item, p: seq<byte>)
    requires x.Valid() && x.val > -I64 && y.Valid() && y.config == x.config
    requires !x.IsZero() && x.Packs() && |p| >= BUFFER - 1 && Holds(x, p)
    ensures y.RestoredFrom(p) == y.Showing(x)
  {
    PackedBack(x);
    HeldAt(x, p);
    hide Item.PackedLength, Item.IsZero, Item.Marked, Item.RestoredFrom, Item.Payload, Item.Showing;
    if x.Negative() {
      NegativeHeld(x, p);
      NegativeRestores(x, y, p);
    } else {
      PlainHeld(x, p);
      if x.config.format.Bcd? {
        NumberRestores(x, y, p);
      } else {
        BytesRestore(x, y, p);
      }
    }
  }

  lemma NumberRestores(x: Item, y: Item, p: seq<byte>)
    requires x.Valid() && x.val > -I64 && y.Valid() && y.config == x.config && x.config.format.Bcd?
    requires |p| >= BUFFER - 1 && (p[1] as int) / 8 == x.Size()
    requires 2 + x.Size() <= |p| && p[2..2 + x.Size()] == x.Payload()
    ensures y.RestoredFrom(p) == y.Showing(x)
  {
    hide BigBcd, BigPairs, LowPairs;
    BigPairsRead(x.Magnitude(), x.Size());
  }

  lemma NegativeRestores(x: Item, y: Item, p: seq<byte>)
    requires x.Valid() && x.val > -I64 && y.Valid() && y.config == x.config && x.config.format.Bcd?
    requires |p| >= BUFFER - 1 && (p[1] as int) / 8 == x.Size() + 1
    requires 3 + x.Size() <= |p| && p[2] == 0xFF && p[3..3 + x.Size()] == x.Payload()
    ensures y.RestoredFrom(p) == y.Showing(x)
  {
    hide BigBcd, BigPairs, LowPairs;
    BigPairsRead(x.Magnitude(), x.Size());
  }

  lemma HeldAt(x: Item, p: seq<byte>)
    requires x.Valid() && |p| >= BUFFER - 1 && Holds(x, p)
    ensures p[1] == x.PackedLength() && 2 + |x.Marked()| <= |p| && p[2..2 + |x.Marked()|] == x.Marked()
  {
    hide Item.PackedLength, Item.Marked;
    var all := [x.config.id % 256, x.PackedLength()] + x.Marked();
    assert p[..|all|] == all;
    assert all[1] == p[1] && all[2..] == p[2..|all|];
  }

  lemma PlainHeld(x: Item, p: seq<byte>)
    requires x.Valid() && !x.IsZero() && !x.Negative()
    requires 2 + |x.Marked()| <= |p| && p[2..2 + |x.Marked()|] == x.Marked()
    ensures 2 + x.Size() <= |p| && p[2..2 + x.Size()] == x.Payload()
  {
    hide Item.IsZero, Item.Payload;
  }

  lemma BytesRestore(x: Item, y: Item, p: seq<byte>)
    requires x.Valid() && x.val > -I64 && y.Valid() && y.config == x.config && !x.config.format.Bcd?
    requires |p| >= BUFFER - 1 && (p[1] as int) / 8 == x.Size()
    requires 2 + x.Size() <= |p| && p[2..2 + x.Size()] == x.Payload()
    ensures y.RestoredFrom(p) == y.Showing(x)
  {
  }

  lemma NegativeHeld(x: Item, p: seq<byte>)
    requires x.Valid() && x.Negative() && 2 + |x.Marked()| <= |p| && p[2..2 + |x.Marked()|] == x.Marked()
    ensures 3 + x.Size() <= |p|
    ensures p[2] == 0xFF && p[3..3 + x.Size()] == x.Payload()
  {
    hide Item.IsZero, Item.Payload;
    var m := p[2..3 + x.Size()];
    assert m == [0xFF] + x.Payload();
    assert m[0] == p[2] && m[1..] == p[3..3 + x.Size()];
  }

  // ---------- the class ----------

  /** An item with its buffers; those that its format does not use are empty. */
  class Element {
    const config: Config
    var val: int
    const hex: array<byte>
    const chars: array<byte>

    function Value(): Item
      reads this, hex, chars
    {
      Item(config, val, hex[..], chars[..])
    }

    ghost predicate Valid()
      reads this, hex, chars
    {
      hex != chars && Value().Valid()
    }

    constructor (config: Config)
      requires Configured(config)
      ensures Valid() && fresh(hex) && fresh(chars)
      ensures Value() == New(config)
    {
      this.config, val := config, INVALID;
      var n := (config.fl + config.len + 1) / 2;
      hex := new byte[if config.format.Hex? then n else 0](_ => 0xFF);
      chars := new byte[if config.format.Chars? then n + 2 else 0](_ => 0);
    }

    function Size(): nat {
      (config.len + 1) / 2
    }

    method IsZero() returns (r: bool)
      requires Valid()
      ensures r == Value().IsZero()
    {
      if Size() == 0 {
        return true;
      }
      match config.format {
        case Bcd =>
          return val == INVALID;
        case Hex =>
          for i := 0 to Size()
            invariant forall k :: 0 <= k < i ==> hex[k] == 0xFF
          {
            if hex[i] != 0xFF {
              return false;
            }
          }
          return true;
        case Chars =>
          return chars[0] == 0;
      }
    }

    /** The loop of `_to_report` for a number, from its last byte down. The smallest
        64-bit number has no magnitude to take. */
    method PutBcd(out: array<byte>, at: nat)
      requires Valid() && val > -I64 && config.format.Bcd? && at + Size() <= out.Length
      requires out != hex && out != chars
      modifies out
      ensures out[at..at + Size()] == Value().Payload()
      ensures out[..at] == old(out[..at])
    {
      hide PairByte, BigPairs, Item.IsZero;
      var vv: nat := if val < 0 then -val else val;
      ghost var all := BigPairs(vv, Size());
      var i, bytes := 0, Size();
      assert all == BigPairs(vv, bytes) + out[at + bytes..at + bytes];
      while i < bytes
        invariant 0 <= i <= bytes
        invariant all == BigPairs(vv, bytes - i) + out[at + bytes - i..at + bytes]
        invariant out[..at] == old(out[..at])
      {
        ghost var after := out[at + bytes - i..at + bytes];
        PairsStep(vv, bytes - i, after);
        var a := vv % 100;
        vv := vv / 100;
        out[at + bytes - 1 - i] := PairByte(a);
        i := i + 1;
        assert out[at + bytes - i..at + bytes] == [PairByte(a)] + after;
      }
      NoPairs(vv, out[at..at + bytes]);
    }

    /** `memcpy` of the buffer of a HEX or CHAR item. */
    method PutBytes(out: array<byte>, at: nat)
      requires Valid() && !config.format.Bcd? && at + Size() <= out.Length
      requires out != hex && out != chars
      modifies out
      ensures out[at..at + Size()] == Value().Payload()
      ensures out[..at] == old(out[..at])
    {
      var data := if config.format.Hex? then hex else chars;
      forall i | 0 <= i < Size() {
        out[at + i] := data[i];
      }
    }

    method PutPayload(out: array<byte>, at: nat)
      requires Valid() && val > -I64 && at + Size() <= out.Length
      requires out != hex && out != chars
      modifies out
      ensures out[at..at + Size()] == Value().Payload()
      ensures out[..at] == old(out[..at])
    {
      if config.format.Bcd? {
        PutBcd(out, at);
      } else {
        PutBytes(out, at);
      }
    }

    method PutNegative(out: array<byte>, at: nat)
      requires Valid() && val > -I64 && at + 1 + Size() <= out.Length
      requires out != hex && out != chars
      modifies out
      ensures out[at..at + 1 + Size()] == [0xFF] + Value().Payload()
      ensures out[..at] == old(out[..at])
    {
      hide Item.Payload;
      out[at] := 0xFF;
      ghost var before := out[..at + 1];
      PutPayload(out, at + 1);
      assert out[..at + 1] == before;
      assert out[at] == before[at];
      Prefixed(out[..], at, Value().Payload());
      assert out[..at] == before[..at];
    }

    /** What follows the packed length. */
    method PutMarked(out: array<byte>, at: nat) returns (n: nat)
      requires Valid() && val > -I64 && at + |Value().Marked()| <= out.Length
      requires out != hex && out != chars
      modifies out
      ensures n == |Value().Marked()| && out[at..at + n] == Value().Marked()
      ensures out[..at] == old(out[..at])
    {
      hide Item.IsZero, Item.Payload;
      var zero := IsZero();
      if zero {
        forall i | at <= i < at + Size() {
          out[i] := 0xFF;
        }
        return Size();
      } else if config.format.Bcd? && val < 0 {
        PutNegative(out, at);
        return Size() + 1;
      } else {
        PutPayload(out, at);
        return Size();
      }
    }

    /** `reportlen` and `negreportlen` */
    method PackedLength() returns (b: byte)
      requires Valid()
      ensures b == Value().PackedLength()
      ensures (b as int) % 8 == config.fl
      ensures Value().Packs() <==> (b as int) / 8 == if Value().Negative() then Size() + 1 else Size()
    {
      PackedBack(Value());
      DecimalsPacked(Value());
      var zero := IsZero();
      var n := if !zero && config.format.Bcd? && val < 0 then Size() + 1 else Size();
      b := (n * 8 + config.fl) % 256;
    }

    /** Identifier and packed length. */
    method PutHead(out: array<byte>) returns (at: nat)
      requires Valid() && out.Length >= 3 && out != hex && out != chars
      modifies out
      ensures at <= 3
      ensures out[..at] == (if config.id > 0xFF00 then [0xFF] else []) + [config.id % 256, Value().PackedLength()]
    {
      hide Item.PackedLength, Item.Valid;
      at := 0;
      if config.id > 0xFF00 {
        out[0] := 0xFF;
        at := 1;
      }
      out[at] := config.id % 256;
      var packed := PackedLength();
      out[at + 1] := packed;
      at := at + 2;
    }

    method ToReport(out: array<byte>) returns (size: nat)
      requires Valid() && val > -I64 && out.Length >= 3 && |Value().Report()| <= out.Length
      requires out != hex && out != chars
      modifies out
      ensures size == |Value().Report()| && out[..size] == Value().Report()
      ensures config.len > 0 && Value().Packs() ==>
                var at := if config.id > 0xFF00 then 1 else 0;
                && size == at + 2 + (out[at + 1] as int) / 8 && out[at] == config.id % 256
                && (out[at + 1] as int) % 8 == config.fl
    {
      hide Item.PackedLength, Item.Marked, Item.Valid, Item.Report;
      ghost var x := Value();
      if config.len == 0 {
        NoReport(x);
        return 0;
      }
      ReportParts(x);
      if x.Packs() {
        ReportShape(x);
      }
      var at := PutHead(out);
      assert Value() == x;
      ghost var head := out[..at];
      var n := PutMarked(out, at);
      assert Value() == x;
      size := at + n;
      assert out[..size] == head + x.Marked();
    }

    /** `fromreport`, in place. */
    method FromReport(b: seq<byte>)
      requires Valid() && |b| >= BUFFER
      modifies this`val, hex, chars
      ensures Valid() && Value() == old(Value()).Restored(b)
    {
      RestoredValid(Value(), b);
      var p := b;
      if p[0] == 0xFF {
        p := p[1..];
      }
      match config.format {
        case Bcd => FromBcd(p);
        case Hex => FromHex(p);
        case Chars => FromChars(p);
      }
    }

    method FromBcd(p: seq<byte>)
      requires Valid() && |p| >= BUFFER - 1 && config.format.Bcd?
      modifies this`val
      ensures Value() == old(Value()).RestoredFrom(p)
    {
      hide BigBcd, Signed;
      var rsize := (p[1] as int) / 8;
      var v: int;
      if rsize > Size() && p[2] == 0xFF {
        v := BigBcd2Hex(p[3..], rsize - 1);
        assert p[3..][..rsize - 1] == p[3..2 + rsize];
      } else {
        if rsize > Size() {
          rsize := Size();
        }
        v := BigBcd2Hex(p[2..], rsize);
        assert p[2..][..rsize] == p[2..2 + rsize];
      }
      val := Signed(v);
    }

    method FromHex(p: seq<byte>)
      requires Valid() && |p| >= BUFFER - 1 && config.format.Hex?
      modifies hex
      ensures Value() == old(Value()).RestoredFrom(p)
    {
      var rsize := (p[1] as int) / 8;
      if Size() < rsize {
        rsize := Size();
      }
      CopyFront(p, hex, rsize);
    }

    /** Text is ended with a 0. */
    method FromChars(p: seq<byte>)
      requires Valid() && |p| >= BUFFER - 1 && config.format.Chars?
      modifies chars
      ensures Value() == old(Value()).RestoredFrom(p)
    {
      var rsize := (p[1] as int) / 8;
      if Size() < rsize {
        rsize := Size();
      }
      ghost var before := chars[..];
      CopyFront(p, chars, rsize);
      chars[rsize] := 0;
      EndedWithZero(p[2..2 + rsize], before);
    }
  }

  lemma EndedWithZero(d: seq<byte>, before: seq<byte>)
    requires |d| < |before|
    ensures (d + before[|d|..])[|d| := 0] == d + [0] + before[|d| + 1..]
  {
  }

  /** The `memcpy` of a report's contents. */
  method CopyFront(p: seq<byte>, buffer: array<byte>, n: nat)
    requires 2 + n <= |p| && n <= buffer.Length
    modifies buffer
    ensures buffer[..] == p[2..2 + n] + old(buffer[..])[n..]
  {
    forall i | 0 <= i < n {
      buffer[i] := p[2 + i];
    }
  }

  lemma PairsStep(v: nat, n: nat, after: seq<byte>)
    requires n > 0
    ensures BigPairs(v, n) + after == BigPairs(v / 100, n - 1) + ([PairByte(v % 100)] + after)
  {
    hide PairByte;
  }

  lemma NoPairs(v: nat, after: seq<byte>)
    ensures BigPairs(v, 0) + after == after
  {
  }

  lemma NoReport(x: Item)
    requires x.Valid() && x.config.len == 0
    ensures x.Report() == []
  {
  }

  lemma ReportParts(x: Item)
    requires x.Valid() && x.config.len > 0
    ensures x.Report() ==
            (if x.config.id > 0xFF00 then [0xFF] else []) + [x.config.id % 256, x.PackedLength()] + x.Marked()
  {
    hide Item.PackedLength, Item.Marked;
  }

  lemma Prefixed(s: seq<byte>, at: nat, d: seq<byte>)
    requires at + 1 + |d| <= |s| && s[at + 1..at + 1 + |d|] == d
    ensures s[at..at + 1 + |d|] == [s[at]] + d
  {
  }

  predicate Configured(c: Config) {
    c.id < 0x1_0000 && c.fl < 8 && (c.format.Chars? ==> c.len + c.fl > 0)
  }

  /** A new item: an empty number, 0xFF in every byte, or zeros. */
  function New(c: Config): (x: Item)
    requires Configured(c)
    ensures x.Valid() && x.config == c && x.IsZero()
    ensures c.format.Hex? ==> c.len + c.fl <= 2 * |x.hex| <= c.len + c.fl + 1
    ensures c.format.Chars? ==> c.len + c.fl + 4 <= 2 * |x.chars| <= c.len + c.fl + 5
  {
    var n := (c.fl + c.len + 1) / 2;
    Item(c, INVALID,
         if c.format.Hex? then Repeated(0xFF, n) else [],
         if c.format.Chars? then Repeated(0, n + 2) else [])
  }
}

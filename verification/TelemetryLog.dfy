/** A set of data elements and its text log (DataClass in DataClass.hpp, rx_serach in
    lib.cpp). */
module TelemetryLog {
  import opened Outcomes
  import opened Encoding
  import opened Codecs
  import opened Telemetry

  // ---------- finding the reports in a log ----------

  /** `[-0-9a-fA-F]` */
  predicate InReport(c: char) {
    c == '-' || '0' <= c <= '9' || 'a' <= c <= 'f' || 'A' <= c <= 'F'
  }

  /** Where the first match from `i` on starts; the length if there is none. */
  function Start(s: string, i: nat): (n: nat)
    requires i <= |s|
    ensures i <= n <= |s| && (n < |s| ==> InReport(s[n]))
    decreases |s| - i
  {
    if i == |s| || InReport(s[i]) then i else Start(s, i + 1)
  }

  /** Where the longest match that starts at `i` ends. */
  function Stop(s: string, i: nat): (n: nat)
    requires i <= |s|
    ensures i <= n <= |s| && (n < |s| ==> !InReport(s[n]))
    ensures i < |s| && InReport(s[i]) ==> i < n
    decreases |s| - i
  {
    if i == |s| || !InReport(s[i]) then i else Stop(s, i + 1)
  }

  /** All matches from `i` on, from left to right. */
  function Matches(s: string, i: nat): seq<string>
    requires i <= |s|
    decreases |s| - i
  {
    var so := Start(s, i);
    if so == |s| then [] else [s[so..Stop(s, so)]] + Matches(s, Stop(s, so))
  }

  datatype Room = Refused | Granted(capacity: int)

  /** `rx_search_match_ensure`: room for `free` more matches. */
  function Ensure(capacity: int, count: int, free: int): Room {
    if capacity > 0 && count >= capacity then Refused
    else if free > 0x7FFF_FFFF / 64 then Refused
    else if free <= capacity - count then Granted(capacity)
    else Granted((free + count + 16 - 1) / 16 * 16)
  }

  /** Asked for one at a time the buffer never grows: the call that would need it to is
      refused. */
  lemma NeverGrows(count: nat)
    requires count <= 16
    ensures Ensure(16, count, 1) == if count == 16 then Refused else Granted(16)
  {
  }

  /** `rx_serach`: room is made before each match is looked for, so the search fails
      unless there is room to spare after the last match. */
  method Search(text: string) returns (found: Option<seq<string>>)
    ensures found == if |Matches(text, 0)| < 16 then Some(Matches(text, 0)) else None
  {
    hide Start, Stop;
    var capacity := 16;
    var pmatch: seq<string> := [];
    var offset := 0;
    while true
      invariant capacity == 16 && |pmatch| <= 16 && offset <= |text|
      invariant Matches(text, 0) == pmatch + Matches(text, offset)
      decreases |text| - offset
    {
      NeverGrows(|pmatch|);
      var room := Ensure(capacity, |pmatch|, 1);
      if room == Refused {
        return None;
      }
      capacity := room.capacity;
      var so := Start(text, offset);
      if so == |text| {
        assert Matches(text, offset) == [];
        assert pmatch + [] == pmatch;
        return Some(pmatch);
      }
      var eo := Stop(text, so);
      assert Matches(text, offset) == [text[so..eo]] + Matches(text, eo);
      assert pmatch + ([text[so..eo]] + Matches(text, eo)) == pmatch + [text[so..eo]] + Matches(text, eo);
      pmatch := pmatch + [text[so..eo]];
      offset := eo;
    }
  }

  ghost predicate AllInReport(h: string) {
    forall i :: 0 <= i < |h| ==> InReport(h[i])
  }

  /** Matches depend only on what is not read yet. */
  lemma {:induction false} StartShifted(front: string, s: string, i: nat)
    requires i <= |s|
    ensures Start(front + s, |front| + i) == |front| + Start(s, i)
    decreases |s| - i
  {
    if i < |s| && !InReport(s[i]) {
      StartShifted(front, s, i + 1);
    }
  }

  lemma {:induction false} StopShifted(front: string, s: string, i: nat)
    requires i <= |s|
    ensures Stop(front + s, |front| + i) == |front| + Stop(s, i)
    decreases |s| - i
  {
    if i < |s| && InReport(s[i]) {
      StopShifted(front, s, i + 1);
    }
  }

  lemma SliceShifted(front: string, s: string, a: nat, b: nat)
    requires a <= b <= |s|
    ensures (front + s)[|front| + a..|front| + b] == s[a..b]
  {
  }

  lemma {:induction false} MatchesShifted(front: string, s: string, i: nat)
    requires i <= |s|
    ensures Matches(front + s, |front| + i) == Matches(s, i)
    decreases |s| - i
  {
    hide Start, Stop;
    StartShifted(front, s, i);
    var so := Start(s, i);
    if so < |s| {
      StopShifted(front, s, so);
      var eo := Stop(s, so);
      MatchesShifted(front, s, eo);
      SliceShifted(front, s, so, eo);
    }
  }

  /** The characters of a report. */
  lemma InReportIff(c: char)
    ensures InReport(c) <==> c in "-0123456789abcdefABCDEF"
  {
  }

  /** No match is found in text without such characters. */
  lemma {:induction false} NothingMatched(junk: string, i: nat)
    requires i <= |junk| && forall k :: 0 <= k < |junk| ==> !InReport(junk[k])
    ensures Matches(junk, i) == []
    decreases |junk| - i
  {
    hide InReport;
    StartsAt(junk, i, |junk|);
  }

  lemma {:induction false} StartsAt(s: string, i: nat, n: nat)
    requires i <= n <= |s| && (forall k :: i <= k < n ==> !InReport(s[k])) && (n < |s| ==> InReport(s[n]))
    ensures Start(s, i) == n
    decreases n - i
  {
    hide InReport;
    if i < n {
      StartsAt(s, i + 1, n);
    }
  }

  lemma {:induction false} StopsAt(s: string, i: nat, n: nat)
    requires i <= n <= |s| && (forall k :: i <= k < n ==> InReport(s[k])) && (n < |s| ==> !InReport(s[n]))
    ensures Stop(s, i) == n
    decreases n - i
  {
    hide InReport;
    if i < n {
      StopsAt(s, i + 1, n);
    }
  }

  /** A report between other characters is matched, whatever these are, and then what
      follows it. */
  lemma MatchedBetween(junk: string, h: string, rest: string)
    requires (forall k :: 0 <= k < |junk| ==> !InReport(junk[k])) && h != "" && AllInReport(h)
    requires rest != "" ==> !InReport(rest[0])
    ensures Matches(junk + h + rest, 0) == [h] + Matches(rest, 0)
  {
    hide InReport, Start, Stop;
    var s, n := junk + h + rest, |junk| + |h|;
    StartsAt(s, 0, |junk|);
    StopsAt(s, |junk|, n);
    assert s[|junk|..n] == h;
    assert s == (junk + h) + rest;
    MatchesShifted(junk + h, rest, 0);
  }

  lemma {:induction false} StopsAtComma(h: string, rest: string, i: nat)
    requires AllInReport(h) && i <= |h|
    ensures Stop(h + ([','] + rest), i) == |h|
    decreases |h| - i
  {
    if i < |h| {
      StopsAtComma(h, rest, i + 1);
    }
  }

  lemma FirstMatch(s: string, h: string)
    requires h != "" && h <= s && InReport(s[0]) && Stop(s, 0) == |h|
    ensures Matches(s, 0) == [h] + Matches(s, |h|)
  {
    hide Stop;
    assert s[..|h|] == h;
  }

  lemma CommaSkipped(rest: string)
    ensures Matches([','] + rest, 0) == Matches(rest, 0)
  {
    var tail := [','] + rest;
    assert Start(tail, 0) == Start(tail, 1);
    assert Matches(tail, 0) == Matches(tail, 1);
    hide Matches, Start;
    MatchesShifted([','], rest, 0);
  }

  /** A report and a comma in front of the rest of a log. */
  lemma MatchesCons(h: string, rest: string)
    requires h != "" && AllInReport(h)
    ensures Matches(h + ([','] + rest), 0) == [h] + Matches(rest, 0)
  {
    hide Matches, Start, Stop;
    var tail := [','] + rest;
    StopsAtComma(h, rest, 0);
    FirstMatch(h + tail, h);
    MatchesShifted(h, tail, 0);
    CommaSkipped(rest);
  }

  lemma {:induction false} HexInReport(data: seq<byte>)
    ensures AllInReport(HexOf(data))
    decreases |data|
  {
    if data != [] {
      HexInReport(data[..|data| - 1]);
    }
  }

  // ---------- writing a log ----------

  ghost predicate AllValid(items: seq<Item>) {
    forall i :: 0 <= i < |items| ==> items[i].Valid()
  }

  /** The hex texts of the items that are not empty, from the `i`-th on. */
  function Reports(items: seq<Item>, i: nat): (r: seq<string>)
    requires AllValid(items) && i <= |items|
    ensures |r| <= |items| - i
    decreases |items| - i
  {
    if i == |items| then []
    else (if items[i].IsZero() then [] else [HexOf(items[i].Report())]) + Reports(items, i + 1)
  }

  /** Each followed by a comma. */
  function Joined(reports: seq<string>): string {
    if reports == [] then "" else reports[0] + ([','] + Joined(reports[1..]))
  }

  lemma {:induction false} MatchesOfJoined(reports: seq<string>)
    requires forall h | h in reports :: h != "" && AllInReport(h)
    ensures Matches(Joined(reports), 0) == reports
  {
    hide Matches, AllInReport;
    if reports == [] {
      NoMatch();
    } else {
      assert forall h | h in reports[1..] :: h in reports;
      MatchesOfJoined(reports[1..]);
      assert reports[0] in reports;
      MatchesCons(reports[0], Joined(reports[1..]));
      assert reports == [reports[0]] + reports[1..];
    }
  }

  lemma NoMatch()
    ensures Matches("", 0) == []
  {
  }

  lemma {:induction false} ReportsMatch(items: seq<Item>, i: nat)
    requires AllValid(items) && i <= |items|
    ensures forall h | h in Reports(items, i) :: h != "" && AllInReport(h)
    decreases |items| - i
  {
    hide AllInReport, HexOf, Item.Report, Item.IsZero;
    if i < |items| {
      ReportsMatch(items, i + 1);
      HexInReport(items[i].Report());
      if !items[i].IsZero() {
        NotEmpty(items[i]);
      }
    }
  }

  lemma NotEmpty(x: Item)
    requires x.Valid() && !x.IsZero()
    ensures x.Report() != [] && HexOf(x.Report()) != ""
  {
  }

  // ---------- reading a log ----------

  type Buffer = s: seq<byte> | |s| == BUFFER witness seq(BUFFER, _ => 0)

  /** The buffer after `str2hexarray`: what is not written keeps its stale contents. */
  function Filled(token: string, stale: Buffer): Buffer {
    var d := BytesOf(token);
    if |d| >= BUFFER then d[..BUFFER] else d + stale[|d|..]
  }

  /** The identifier at the front of a report. */
  function SidOf(b: Buffer): nat {
    if b[0] == 0xFF then 0xFF00 + (b[1] as int) else b[0]
  }

  /** Items by position, and the one that stands for unknown identifiers. */
  datatype Store = Store(items: seq<Item>, spare: Item)

  ghost predicate StoreValid(s: Store) {
    AllValid(s.items) && s.spare.Valid()
  }

  /** Identifiers lead to their items. */
  ghost predicate Indexed(index: map<int, nat>, items: seq<Item>) {
    && (forall id | id in index :: index[id] < |items|)
    && (forall i :: 0 <= i < |items| ==> items[i].config.id in index && index[items[i].config.id] == i)
  }

  ghost predicate InBounds(index: map<int, nat>, size: nat) {
    forall id | id in index :: index[id] < size
  }

  function Taken(index: map<int, nat>, s: Store, token: string, stale: Buffer): (r: Store)
    requires StoreValid(s) && InBounds(index, |s.items|)
    ensures StoreValid(r) && |r.items| == |s.items|
  {
    var b := Filled(token, stale);
    var sid := SidOf(b);
    if sid in index then
      RestoredValid(s.items[index[sid]], b);
      s.(items := s.items[index[sid] := s.items[index[sid]].Restored(b)])
    else
      RestoredValid(s.spare, b);
      s.(spare := s.spare.Restored(b))
  }

  function TakenAll(index: map<int, nat>, s: Store, tokens: seq<string>, stale: nat -> Buffer, i: nat): (r: Store)
    requires StoreValid(s) && InBounds(index, |s.items|) && i <= |tokens|
    ensures StoreValid(r) && |r.items| == |s.items|
    decreases |tokens| - i
  {
    if i == |tokens| then s else TakenAll(index, Taken(index, s, tokens[i], stale(i)), tokens, stale, i + 1)
  }

  /** `fromlog`: nothing at all is taken from a log of more than fifteen reports. */
  function Loaded(index: map<int, nat>, s: Store, log: string, stale: nat -> Buffer): Store
    requires StoreValid(s) && InBounds(index, |s.items|)
  {
    var tokens := Matches(log, 0);
    if |tokens| > 15 then s else TakenAll(index, s, tokens, stale, 0)
  }

  // ---------- where the reports of a log land ----------

  lemma {:induction false} BytesFilled(data: seq<byte>, stale: Buffer)
    requires |data| <= BUFFER
    ensures data <= Filled(HexOf(data), stale)
  {
    HexRoundTrip(data);
  }

  lemma FrontFilled(data: seq<byte>, stale: Buffer)
    requires |data| >= 2
    ensures Filled(HexOf(data), stale)[..2] == data[..2]
  {
    HexRoundTrip(data);
  }

  lemma NotNothing(x: Item)
    requires x.Valid() && !x.IsZero()
    ensures x.Size() > 0 && x.config.len > 0
  {
  }

  /** The identifier a report is taken for: only the low byte is written, and an 0xFF in
      front makes the next byte one. */
  function Target(x: Item): nat
    requires x.Valid()
  {
    if x.config.id > 0xFF00 then x.config.id
    else if x.config.id % 256 == 0xFF then 0xFF00 + (x.PackedLength() as int)
    else x.config.id % 256
  }

  /** A report leads back to its item exactly when the identifier is below 0xFF or above
      0xFF00. */
  lemma TargetIff(x: Item)
    requires x.Valid()
    ensures Target(x) == x.config.id <==> Tellable(x.config.id)
  {
    hide Item.PackedLength;
  }

  lemma SidIsTarget(x: Item, b: Buffer)
    requires x.Valid() && !x.IsZero() && |x.Report()| >= 2 && b[..2] == x.Report()[..2]
    ensures SidOf(b) == Target(x)
  {
    hide Item.Marked, Item.IsZero, Item.PackedLength;
    var r := x.Report();
    assert b[0] == b[..2][0] == r[0] && b[1] == b[..2][1] == r[1];
    NotNothing(x);
  }

  /** What the report of one item does to a store. */
  function Land(index: map<int, nat>, s: Store, x: Item, stale: Buffer): (r: Store)
    requires StoreValid(s) && InBounds(index, |s.items|) && x.Valid()
    ensures StoreValid(r) && |r.items| == |s.items|
  {
    var b, t := Filled(HexOf(x.Report()), stale), Target(x);
    if t in index then
      RestoredValid(s.items[index[t]], b);
      s.(items := s.items[index[t] := s.items[index[t]].Restored(b)])
    else
      RestoredValid(s.spare, b);
      s.(spare := s.spare.Restored(b))
  }

  /** A report whose leading bytes name no item is read into the spare one, and one that
      names an item into that; nothing else changes. */
  lemma LandsAt(index: map<int, nat>, s: Store, x: Item, stale: Buffer, j: nat)
    requires StoreValid(s) && InBounds(index, |s.items|) && x.Valid() && j < |s.items|
    ensures var b, r := Filled(HexOf(x.Report()), stale), Land(index, s, x, stale);
            && r.spare == (if Target(x) in index then s.spare else s.spare.Restored(b))
            && r.items[j] == if Target(x) in index && index[Target(x)] == j then s.items[j].Restored(b) else s.items[j]
  {
    hide Item.Report, Item.Restored, Filled, HexOf, Target, Item.Valid;
  }

  /** The reports of all items that are not empty, from the `i`-th on. */
  function Landed(index: map<int, nat>, s: Store, x: seq<Item>, i: nat, stale: nat -> Buffer, k: nat): (r: Store)
    requires StoreValid(s) && InBounds(index, |s.items|) && AllValid(x) && i <= |x|
    ensures StoreValid(r) && |r.items| == |s.items|
    decreases |x| - i
  {
    if i == |x| then s
    else if x[i].IsZero() then Landed(index, s, x, i + 1, stale, k)
    else Landed(index, Land(index, s, x[i], stale(k)), x, i + 1, stale, k + 1)
  }

  lemma LandIsTaken(index: map<int, nat>, s: Store, x: Item, stale: Buffer)
    requires StoreValid(s) && InBounds(index, |s.items|) && x.Valid() && !x.IsZero()
    ensures Taken(index, s, HexOf(x.Report()), stale) == Land(index, s, x, stale)
  {
    hide Item.Report, Item.IsZero, Item.Restored, Filled, HexOf, SidOf, Target;
    ReportStarts(x);
    FrontFilled(x.Report(), stale);
    SidIsTarget(x, Filled(HexOf(x.Report()), stale));
  }

  lemma ReportStarts(x: Item)
    requires x.Valid() && !x.IsZero()
    ensures |x.Report()| >= 2
  {
    hide Item.Marked, Item.IsZero, Item.PackedLength;
    NotNothing(x);
  }

  lemma {:induction false} TakenAllLand(index: map<int, nat>, s: Store, x: seq<Item>, i: nat,
                                        tokens: seq<string>, k: nat, stale: nat -> Buffer)
    requires StoreValid(s) && InBounds(index, |s.items|) && AllValid(x) && i <= |x|
    requires k <= |tokens| && tokens[k..] == Reports(x, i)
    ensures TakenAll(index, s, tokens, stale, k) == Landed(index, s, x, i, stale, k)
    decreases |x| - i
  {
    hide Item.Report, Item.IsZero, Taken, Land, HexOf, Item.Valid;
    if i == |x| {
    } else if x[i].IsZero() {
      TakenAllLand(index, s, x, i + 1, tokens, k, stale);
    } else {
      assert tokens[k] == tokens[k..][0] == HexOf(x[i].Report());
      assert tokens[k + 1..] == tokens[k..][1..] == Reports(x, i + 1);
      LandIsTaken(index, s, x[i], stale(k));
      TakenAllLand(index, Land(index, s, x[i], stale(k)), x, i + 1, tokens, k + 1, stale);
    }
  }

  /** What loading the log of any items does: the reports land one after the other, or,
      with more than fifteen of them, nothing happens at all. */
  lemma LogLands(index: map<int, nat>, x: seq<Item>, y: Store, stale: nat -> Buffer)
    requires AllValid(x) && StoreValid(y) && InBounds(index, |y.items|)
    ensures Loaded(index, y, Joined(Reports(x, 0)), stale) ==
            if |Reports(x, 0)| > 15 then y else Landed(index, y, x, 0, stale, 0)
  {
    hide TakenAll, Matches, Reports, Joined, Landed;
    ReportsMatch(x, 0);
    MatchesOfJoined(Reports(x, 0));
    if |Reports(x, 0)| <= 15 {
      assert Reports(x, 0)[0..] == Reports(x, 0);
      TakenAllLand(index, y, x, 0, Reports(x, 0), 0, stale);
    }
  }

  // ---------- what a log carries over ----------

  /** What makes the value of an item come through a log. */
  ghost predicate Loggable(x: Item) {
    x.Valid() && (!x.IsZero() ==> Tellable(x.config.id) && x.Packs() && x.val > -I64)
  }

  lemma ReportFits(x: Item)
    requires x.Valid() && !x.IsZero() && x.Packs()
    ensures |x.Report()| <= 35
  {
    hide Item.PackedLength, Item.IsZero;
  }

  ghost predicate SameConfigs(x: seq<Item>, y: seq<Item>) {
    |x| == |y| && forall i :: 0 <= i < |x| ==> x[i].config == y[i].config
  }

  /** A report that comes through sets its item and no other. */
  lemma LandShows(index: map<int, nat>, x: seq<Item>, i: nat, y: Store, stale: Buffer)
    requires AllValid(x) && StoreValid(y) && Indexed(index, y.items) && SameConfigs(x, y.items)
    requires i < |x| && Loggable(x[i]) && !x[i].IsZero()
    ensures Land(index, y, x[i], stale) == y.(items := y.items[i := y.items[i].Showing(x[i])])
  {
    hide Item.Report, Item.IsZero, Item.Restored, Item.Showing, Item.Packs, Filled, HexOf, Tellable, Target;
    ReportFits(x[i]);
    BytesFilled(x[i].Report(), stale);
    TargetIff(x[i]);
    ReportRestores(x[i], y.items[i], Filled(HexOf(x[i].Report()), stale));
    assert x[i].config == y.items[i].config;
  }

  /** Item `j` is the one that some report leads to which does not come through. */
  ghost predicate Hit(index: map<int, nat>, x: seq<Item>, j: nat)
    requires AllValid(x)
  {
    exists i :: 0 <= i < |x| && Strays(index, x[i], j)
  }

  ghost predicate Strays(index: map<int, nat>, x: Item, j: nat)
    requires x.Valid()
  {
    !Loggable(x) && Target(x) in index && index[Target(x)] == j
  }

  /** What item `j` shows after the reports from the `i`-th on. */
  ghost function Shown(x: seq<Item>, i: nat, j: nat, before: Item): Item
    requires AllValid(x) && j < |x| && before.Valid() && before.config == x[j].config
  {
    if j < i || x[j].IsZero() || !Loggable(x[j]) then before else before.Showing(x[j])
  }

  lemma LandKeeps(index: map<int, nat>, x: seq<Item>, i: nat, y: Store, stale: Buffer, j: nat)
    requires AllValid(x) && StoreValid(y) && Indexed(index, y.items) && SameConfigs(x, y.items)
    requires i < |x| && !x[i].IsZero() && j < |x| && !Hit(index, x, j)
    ensures var z := Land(index, y, x[i], stale);
            && SameConfigs(x, z.items) && Indexed(index, z.items)
            && z.items[j] == if i == j && Loggable(x[i]) then y.items[j].Showing(x[j]) else y.items[j]
  {
    hide Item.Report, Item.IsZero, Item.Restored, Item.Showing, Filled, HexOf, Target, Loggable, Item.Valid;
    LandConfigs(index, x[i], y, stale);
    if Loggable(x[i]) {
      LandShows(index, x, i, y, stale);
    } else {
      assert !Strays(index, x[i], j);
    }
  }

  lemma LandConfigs(index: map<int, nat>, x: Item, y: Store, stale: Buffer)
    requires StoreValid(y) && InBounds(index, |y.items|) && x.Valid()
    ensures SameConfigs(y.items, Land(index, y, x, stale).items)
  {
    hide Item.Report, Item.Restored, Filled, HexOf, Target, Item.Valid;
    var b := Filled(HexOf(x.Report()), stale);
    if Target(x) in index {
      RestoredValid(y.items[index[Target(x)]], b);
    }
  }

  lemma {:induction false} LandedShows(index: map<int, nat>, x: seq<Item>, i: nat, y: Store,
                                       stale: nat -> Buffer, k: nat, j: nat)
    requires AllValid(x) && StoreValid(y) && Indexed(index, y.items) && SameConfigs(x, y.items)
    requires i <= |x| && j < |x| && !Hit(index, x, j)
    ensures Landed(index, y, x, i, stale, k).items[j] == Shown(x, i, j, y.items[j])
    decreases |x| - i
  {
    hide Item.IsZero, Item.Showing, Land, Loggable, Item.Valid, Hit;
    if i < |x| {
      if x[i].IsZero() {
        LandedShows(index, x, i + 1, y, stale, k, j);
      } else {
        LandKeeps(index, x, i, y, stale(k), j);
        LandedShows(index, x, i + 1, Land(index, y, x[i], stale(k)), stale, k + 1, j);
      }
    }
  }

  /** A report that strays into another item is read there as one of its own, and leaves
      nothing but what it says; unless its identifier ends in 0xFF, when the size is read
      from its contents and may reach beyond them. */
  lemma StrayReads(x: Item, z: Item, stale: Buffer, other: Buffer)
    requires x.Valid() && !x.IsZero() && x.Packs() && z.Valid()
    requires x.config.id > 0xFF00 || x.config.id % 256 != 0xFF
    ensures z.Restored(Filled(HexOf(x.Report()), stale)) == z.Restored(Filled(HexOf(x.Report()), other))
  {
    hide Filled, HexOf, Item.IsZero, Item.RestoredFrom, Item.PackedLength, Item.Marked, Item.Packs, Item.Valid;
    ReportFits(x);
    BytesFilled(x.Report(), stale);
    BytesFilled(x.Report(), other);
    NotNothing(x);
    var b, c := Filled(HexOf(x.Report()), stale), Filled(HexOf(x.Report()), other);
    BodyHeld(x, b);
    BodyHeld(x, c);
    SameReading(x, z, if b[0] == 0xFF then b[1..] else b, if c[0] == 0xFF then c[1..] else c);
  }

  lemma BodyHeld(x: Item, b: Buffer)
    requires x.Valid() && x.config.len > 0 && x.Report() <= b
    requires x.config.id > 0xFF00 || x.config.id % 256 != 0xFF
    ensures Holds(x, if b[0] == 0xFF then b[1..] else b)
  {
    hide Item.PackedLength, Item.Marked;
    var body := [x.config.id % 256, x.PackedLength()] + x.Marked();
    if x.config.id > 0xFF00 {
      assert x.Report() == [0xFF] + body;
      assert x.Report()[1..] == body;
    } else {
      assert x.Report() == body;
    }
  }

  lemma {:induction false} SpareStays(index: map<int, nat>, x: seq<Item>, i: nat, y: Store,
                                      stale: nat -> Buffer, k: nat)
    requires AllValid(x) && StoreValid(y) && InBounds(index, |y.items|) && i <= |x|
    requires forall j :: 0 <= j < |x| && !x[j].IsZero() ==> Target(x[j]) in index
    ensures Landed(index, y, x, i, stale, k).spare == y.spare
    decreases |x| - i
  {
    hide Item.IsZero, Target, Item.Valid, Filled, HexOf, Item.Restored;
    if i < |x| {
      if x[i].IsZero() {
        SpareStays(index, x, i + 1, y, stale, k);
      } else {
        SpareStays(index, x, i + 1, Land(index, y, x[i], stale(k)), stale, k + 1);
      }
    }
  }

  lemma {:induction false} LandedConfigs(index: map<int, nat>, x: seq<Item>, i: nat, y: Store,
                                         stale: nat -> Buffer, k: nat)
    requires AllValid(x) && StoreValid(y) && InBounds(index, |y.items|) && i <= |x|
    ensures SameConfigs(y.items, Landed(index, y, x, i, stale, k).items)
    decreases |x| - i
  {
    hide Item.IsZero, Land, Item.Valid;
    if i < |x| {
      if x[i].IsZero() {
        LandedConfigs(index, x, i + 1, y, stale, k);
      } else {
        LandConfigs(index, x[i], y, stale(k));
        LandedConfigs(index, x, i + 1, Land(index, y, x[i], stale(k)), stale, k + 1);
      }
    }
  }

  /** The log of one store, loaded into another with the same configuration and distinct
      identifiers: every item that was not empty shows its value there, and everything
      else is as before, except for the items that reports lead to which cannot come
      through. With more than fifteen reports nothing changes at all. */
  lemma LogCarriesOver(index: map<int, nat>, x: seq<Item>, y: Store, stale: nat -> Buffer)
    requires AllValid(x) && StoreValid(y) && Indexed(index, y.items) && SameConfigs(x, y.items)
    ensures var r := Loaded(index, y, Joined(Reports(x, 0)), stale);
            if |Reports(x, 0)| > 15 then r == y
            else
              && SameConfigs(x, r.items)
              && (forall j :: 0 <= j < |x| && !Hit(index, x, j) ==> r.items[j] == Shown(x, 0, j, y.items[j]))
              && ((forall j :: 0 <= j < |x| && !x[j].IsZero() ==> Target(x[j]) in index) ==> r.spare == y.spare)
  {
    hide Reports, Joined, Loaded, Landed, Hit, Shown, Target, Item.Valid, Item.IsZero;
    LogLands(index, x, y, stale);
    if |Reports(x, 0)| <= 15 {
      LandedConfigs(index, x, 0, y, stale, 0);
      forall j | 0 <= j < |x| && !Hit(index, x, j)
        ensures Landed(index, y, x, 0, stale, 0).items[j] == Shown(x, 0, j, y.items[j])
      {
        LandedShows(index, x, 0, y, stale, 0, j);
      }
      if forall j :: 0 <= j < |x| && !x[j].IsZero() ==> Target(x[j]) in index {
        SpareStays(index, x, 0, y, stale, 0);
      }
    }
  }

  /** If every item can come through, every one does. */
  lemma LogRestoresAll(index: map<int, nat>, x: seq<Item>, y: Store, stale: nat -> Buffer)
    requires AllValid(x) && StoreValid(y) && Indexed(index, y.items) && SameConfigs(x, y.items)
    requires (forall j :: 0 <= j < |x| ==> Loggable(x[j])) && |Reports(x, 0)| <= 15
    ensures var r := Loaded(index, y, Joined(Reports(x, 0)), stale);
            && r.spare == y.spare && SameConfigs(x, r.items)
            && forall j :: 0 <= j < |x| ==>
                 r.items[j] == if x[j].IsZero() then y.items[j] else y.items[j].Showing(x[j])
  {
    hide Reports, Joined, Loaded, Target, Item.Valid, Item.IsZero, Item.Showing;
    LogCarriesOver(index, x, y, stale);
    forall j | 0 <= j < |x| && !x[j].IsZero()
      ensures Target(x[j]) in index
    {
      TargetIff(x[j]);
      assert x[j].config == y.items[j].config;
    }
    forall j | 0 <= j < |x|
      ensures !Hit(index, x, j)
    {
    }
  }

  lemma NothingJoined(x: seq<Item>)
    requires AllValid(x)
    ensures Reports(x, |x|) == [] && Joined([]) == ""
  {
  }

  lemma HexLength(d: seq<byte>)
    ensures |HexOf(d)| == 2 * |d|
  {
  }

  lemma TextFits(x: Item)
    requires Loggable(x) && !x.IsZero()
    ensures |HexOf(x.Report())| <= 70
  {
    ReportFits(x);
    HexLength(x.Report());
  }

  lemma OneMore(x: seq<Item>, i: nat)
    requires AllValid(x) && i < |x|
    ensures x[i].IsZero() ==> Reports(x, i) == Reports(x, i + 1)
    ensures !x[i].IsZero() ==> |Reports(x, i)| == 1 + |Reports(x, i + 1)|
  {
    hide Item.IsZero, Item.Report;
  }

  lemma {:induction false} HexLengths(x: seq<Item>, i: nat)
    requires AllValid(x) && i <= |x| && forall j :: 0 <= j < |x| ==> Loggable(x[j])
    ensures |Joined(Reports(x, i))| <= 71 * |Reports(x, i)|
    decreases |x| - i
  {
    hide Item.Report, Item.IsZero, HexOf, Joined, Loggable, Reports;
    if i == |x| {
      NothingJoined(x);
    } else {
      HexLengths(x, i + 1);
      if !x[i].IsZero() {
        TextFits(x[i]);
        JoinedReport(x, i);
        OneMore(x, i);
      } else {
        OneMore(x, i);
      }
    }
  }

  /** Fifteen reports leave room to spare in the buffer of 2048 characters. */
  lemma LogFits(x: seq<Item>)
    requires AllValid(x) && (forall j :: 0 <= j < |x| ==> Loggable(x[j])) && |Reports(x, 0)| <= 15
    ensures |Joined(Reports(x, 0))| < LOG_SIZE
  {
    HexLengths(x, 0);
  }

  const LOG_SIZE: int := 2048
  const REPORT_SIZE: int := 1024

  // ---------- the class ----------

  lemma JoinedReport(items: seq<Item>, i: nat)
    requires AllValid(items) && i < |items| && !items[i].IsZero()
    ensures Joined(Reports(items, i)) == HexOf(items[i].Report()) + ([','] + Joined(Reports(items, i + 1)))
  {
    assert Reports(items, i)[1..] == Reports(items, i + 1);
  }

  lemma ReportsStep(items: seq<Item>, i: nat, done: string)
    requires AllValid(items) && i < |items|
    ensures done + Joined(Reports(items, i)) ==
            if items[i].IsZero() then done + Joined(Reports(items, i + 1))
            else (done + HexOf(items[i].Report()) + [',']) + Joined(Reports(items, i + 1))
  {
    hide Item.Report, Item.IsZero, HexOf;
    OneMore(items, i);
    if !items[i].IsZero() {
      JoinedReport(items, i);
    }
  }

  /** The last position of each identifier among the first `n` configurations. */
  function Positions(configs: seq<Config>, n: nat): map<int, nat>
    requires n <= |configs|
  {
    if n == 0 then map[] else Positions(configs, n - 1)[configs[n - 1].id := n - 1]
  }

  lemma {:induction false} PositionsFound(configs: seq<Config>, n: nat)
    requires n <= |configs|
    ensures var p := Positions(configs, n);
            && (forall id | id in p :: p[id] < n && configs[p[id]].id == id)
            && (forall k :: 0 <= k < n ==> configs[k].id in p && k <= p[configs[k].id])
  {
    if n > 0 {
      PositionsFound(configs, n - 1);
    }
  }

  /** Distinct identifiers lead to their items. */
  lemma DistinctIndexed(configs: seq<Config>, items: seq<Item>)
    requires |items| == |configs|
    requires forall i :: 0 <= i < |items| ==> Configured(configs[i]) && items[i] == New(configs[i])
    requires forall i, j :: 0 <= i < j < |configs| ==> configs[i].id != configs[j].id
    ensures Indexed(Positions(configs, |configs|), items)
  {
    hide Positions;
    PositionsFound(configs, |configs|);
  }

  /** No two elements share anything. */
  ghost predicate Apart(a: Element, b: Element) {
    a != b && a.hex != b.hex && a.hex != b.chars && a.chars != b.hex && a.chars != b.chars
  }

  ghost predicate AllApart(elements: seq<Element>, spare: Element) {
    && (forall i, j :: 0 <= i < j < |elements| ==> Apart(elements[i], elements[j]))
    && (forall i :: 0 <= i < |elements| ==> Apart(elements[i], spare))
  }

  ghost function Buffers(elements: seq<Element>): set<array<byte>> {
    (set e | e in elements :: e.hex) + (set e | e in elements :: e.chars)
  }

  ghost function Values(elements: seq<Element>): (v: seq<Item>)
    reads elements, Buffers(elements)
    ensures |v| == |elements| && forall i :: 0 <= i < |v| ==> v[i] == elements[i].Value()
  {
    if elements == [] then [] else
      var n := |elements| - 1;
      Values(elements[..n]) + [elements[n].Value()]
  }

  twostate lemma SameValues(elements: seq<Element>)
    requires forall i :: 0 <= i < |elements| ==> elements[i].Value() == old(elements[i].Value())
    ensures Values(elements) == old(Values(elements))
  {
  }

  class DataClass {
    var items: seq<Element>
    const spare: Element
    var index: map<int, nat>

    ghost predicate Valid()
      reads this, items, Buffers(items), spare, spare.hex, spare.chars
    {
      && AllApart(items, spare) && InBounds(index, |items|)
      && (forall i :: 0 <= i < |items| ==> items[i].Valid()) && spare.Valid()
    }

    ghost function Contents(): Store
      reads this, items, Buffers(items), spare, spare.hex, spare.chars
    {
      Store(Values(items), spare.Value())
    }

    constructor (configs: seq<Config>)
      requires forall c | c in configs :: Configured(c)
      ensures Valid() && |items| == |configs| && index == Positions(configs, |configs|)
      ensures forall i :: 0 <= i < |items| ==> items[i].Value() == New(configs[i])
    {
      spare := new Element(Config(0, 0, 0, Bcd));
      items, index := [], map[];
      new;
      DataClassInit(configs);
    }

    /** Every item starts empty; of equal identifiers the last one counts. */
    method DataClassInit(configs: seq<Config>)
      requires Valid() && items == [] && index == map[] && forall c | c in configs :: Configured(c)
      modifies this`items, this`index
      ensures Valid() && |items| == |configs| && index == Positions(configs, |configs|)
      ensures forall i :: 0 <= i < |items| ==> items[i].Value() == New(configs[i])
    {
      hide New, Apart, AllApart, Item.Valid;
      for i := 0 to |configs|
        invariant |items| == i && Valid() && index == Positions(configs, i)
        invariant forall k :: 0 <= k < i ==> items[k].Value() == New(configs[k])
      {
        AddItem(configs[i]);
      }
    }

    /** One round of the loop in `DataClassInit`. */
    method AddItem(c: Config)
      requires Valid() && Configured(c)
      modifies this`items, this`index
      ensures Valid() && |items| == |old(items)| + 1 && items[..|old(items)|] == old(items)
      ensures items[|old(items)|].Value() == New(c)
      ensures index == old(index)[c.id := |old(items)|]
    {
      hide Item.Valid, New;
      ghost var before := items;
      var item := new Element(c);
      assert forall i :: 0 <= i < |before| ==> before[i].Valid() && Apart(before[i], item);
      assert Apart(item, spare);
      items := items + [item];
      index := index[item.config.id := |items| - 1];
    }

    /** `operator[]` */
    method Find(nn: nat) returns (e: Element)
      requires InBounds(index, |items|)
      ensures e == var n := nn % 0x1_0000; if n in index then items[index[n]] else spare
    {
      var n := nn % 0x1_0000;
      if n in index {
        return items[index[n]];
      }
      return spare;
    }

    method ToLog(outSize: nat) returns (text: string)
      requires Valid() && |Joined(Reports(Values(items), 0))| < outSize
      requires forall i :: 0 <= i < |items| && !items[i].Value().IsZero() ==>
                 items[i].val > -I64 && |items[i].Value().Report()| <= REPORT_SIZE
      ensures text == Joined(Reports(Values(items), 0))
    {
      hide Item.Report, Item.IsZero, HexOf, Item.Valid, AllApart, Joined, Reports, Values;
      var out := new char[outSize];
      var bytes := new byte[REPORT_SIZE](_ => 0);
      SameValues(items);
      var offset := PutItems(bytes, out);
      SameValues(items);
      text := out[..offset];
    }

    /** The loop of `tolog`. */
    method PutItems(bytes: array<byte>, out: array<char>) returns (offset: nat)
      requires Valid() && bytes.Length == REPORT_SIZE && |Joined(Reports(Values(items), 0))| < out.Length
      requires forall i :: 0 <= i < |items| ==> bytes != items[i].hex && bytes != items[i].chars
      requires bytes != spare.hex && bytes != spare.chars
      requires forall i :: 0 <= i < |items| && !items[i].Value().IsZero() ==>
                 items[i].val > -I64 && |items[i].Value().Report()| <= REPORT_SIZE
      modifies bytes, out
      ensures offset < out.Length && out[..offset] == Joined(Reports(Values(items), 0))
    {
      hide Item.Report, Item.IsZero, HexOf, Item.Valid, AllApart, InBounds, Joined, Reports, Values;
      ghost var vs := Values(items);
      ContentsValid();
      offset := 0;
      ghost var all := Joined(Reports(vs, 0));
      for i := 0 to |items|
        invariant Values(items) == vs && Valid() && offset < out.Length
        invariant all == out[..offset] + Joined(Reports(vs, i))
      {
        ReportsStep(vs, i, out[..offset]);
        var zero := items[i].IsZero();
        if !zero {
          HexLength(vs[i].Report());
          offset := AppendReport(items[i], bytes, out, offset);
        }
      }
      NothingJoined(vs);
      assert out[..offset] == all;
      out[offset] := '\0';
      assert out[..offset] == all;
      SameValues(items);
    }

    /** One round of the loop in `tolog`. */
    method AppendReport(item: Element, bytes: array<byte>, out: array<char>, offset: nat) returns (end: nat)
      requires item.Valid() && item.val > -I64 && bytes != item.hex && bytes != item.chars
      requires 3 <= bytes.Length && |item.Value().Report()| <= bytes.Length
      requires offset + 2 * |item.Value().Report()| < out.Length
      modifies bytes, out
      ensures end == offset + 2 * |item.Value().Report()| + 1
      ensures out[..end] == old(out[..offset]) + HexOf(item.Value().Report()) + [',']
    {
      hide Item.Report, Item.IsZero, HexOf, Item.Valid;
      ghost var done, r := out[..offset], item.Value().Report();
      var size := item.ToReport(bytes);
      assert bytes[..][..size] == r;
      var n := HexArray2Str(bytes[..], size, out, offset, out.Length - offset);
      assert out[..offset + n] == done + HexOf(r);
      out[offset + n] := ',';
      end := offset + n + 1;
    }

    method FromLog(log: string, stale: nat -> Buffer)
      requires Valid() && forall t | t in Matches(log, 0) :: |t| < 1000
      modifies items, Buffers(items), spare, spare.hex, spare.chars
      ensures Valid() && StoreValid(old(Contents())) && Contents() == Loaded(index, old(Contents()), log, stale)
    {
      hide Taken, Item.Valid, AllApart, Values, Matches, InBounds;
      ContentsValid();
      var found := Search(log);
      if found.None? || |found.value| == 0 {
        return;
      }
      var tokens := found.value;
      ghost var all := TakenAll(index, Contents(), tokens, stale, 0);
      for i := 0 to |tokens|
        invariant Valid() && StoreValid(Contents()) && TakenAll(index, Contents(), tokens, stale, i) == all
      {
        TakeReport(tokens[i], stale(i));
      }
    }

    lemma ContentsValid()
      requires Valid()
      ensures StoreValid(Contents())
    {
    }

    /** One match of the loop in `fromlog`. */
    method TakeReport(token: string, stale: Buffer)
      requires Valid()
      modifies items, Buffers(items), spare, spare.hex, spare.chars
      ensures Valid() && StoreValid(old(Contents())) && Contents() == Taken(index, old(Contents()), token, stale)
    {
      hide Filled, Item.Valid, Item.Restored, AllApart, Values;
      ContentsValid();
      var b := DecodeToken(token, stale);
      var sid: int;
      if b[0] == 0xFF {
        sid := 0xFF00 + b[1] as int;
      } else {
        sid := b[0];
      }
      assert sid == SidOf(b);
      var element := Find(sid);
      if sid in index {
        TakeInto(index[sid], element, b);
      } else {
        TakeSpare(b);
      }
    }

    /** `fromreport` of the element found: the others stay as they are. */
    method TakeInto(at: nat, element: Element, b: Buffer)
      requires Valid() && at < |items| && element == items[at]
      modifies element`val, element.hex, element.chars
      ensures Valid() && spare.Value() == old(spare.Value())
      ensures Values(items) == old(Values(items))[at := old(items[at].Value()).Restored(b)]
    {
      hide Item.Valid, Item.Restored;
      element.FromReport(b);
      assert Apart(element, spare);
      forall i | 0 <= i < |items| && i != at
        ensures items[i].Value() == old(items[i].Value()) && items[i].Valid()
      {
        assert if i < at then Apart(items[i], element) else Apart(element, items[i]);
      }
    }

    method TakeSpare(b: Buffer)
      requires Valid()
      modifies spare`val, spare.hex, spare.chars
      ensures Valid() && spare.Value() == old(spare.Value()).Restored(b)
      ensures Values(items) == old(Values(items))
    {
      hide Item.Valid, Item.Restored;
      spare.FromReport(b);
      forall i | 0 <= i < |items|
        ensures items[i].Value() == old(items[i].Value()) && items[i].Valid()
      {
        assert Apart(items[i], spare);
      }
    }

    /** `str2hexarray` into a buffer that was not cleared. */
    method DecodeToken(token: string, stale: Buffer) returns (b: Buffer)
      ensures b == Filled(token, stale)
    {
      hide BytesOf;
      var bytes := new byte[BUFFER](i requires 0 <= i < BUFFER => stale[i]);
      assert bytes[..] == stale;
      var n := Str2HexArray(token, bytes);
      b := bytes[..];
      assert b == bytes[..n] + bytes[n..];
    }
  }
}

/** What holds of every M2 or M4 exchange, whatever the link delivers. */
module UplinkRuns {
  import opened Outcomes
  import opened Encoding
  import opened Uplink

  /** What may come after a transmission: the same fragment again if it was not
      acknowledged, the next one only if it was. */
  predicate Follows(job: Job, t: Try, u: Try) {
    if t.heard.Some? && t.heard.value.cmd == job.cmd
    then u.sn == t.sn + 1 && t.heard.value.etx != 0x04 && t.heard.value.etx != 0x1B
    else u.sn == t.sn
  }

  ghost predicate Genuine(job: Job, t: Try)
    requires job.Ready()
  {
    1 <= t.sn <= job.count && t.frame == job.Framed(t.sn)
  }

  /** What is heard is the first reply within the ticks, and silence takes all of them. */
  lemma {:induction false} HeardFirst(line: Line, clock: nat, ticks: nat)
    ensures var l := Listen(line, clock, ticks);
            && clock <= l.clock <= clock + ticks
            && (forall k :: clock <= k < l.clock - 1 ==> line(k) == None)
            && (l.heard.Some? ==> clock < l.clock && l.heard == line(l.clock - 1))
            && (l.heard == None ==> l.clock == clock + ticks && forall k :: clock <= k < l.clock ==> line(k) == None)
    decreases ticks
  {
    if ticks > 0 && line(clock) == None {
      HeardFirst(line, clock + 1, ticks - 1);
    }
  }

  lemma ExchangeUnfolds(job: Job, line: Line, ticks: nat, sn: nat, left: nat, clock: nat)
    returns (t: Try, rest: Exchanged, now: nat)
    requires job.Ready() && 1 <= sn <= job.count && left > 0
    ensures var e := Exchange(job, line, ticks, sn, left, clock);
            && t.sn == sn && t.frame == job.Framed(sn) && e == After([t], rest)
            && rest == (if Accepts(job.cmd, t.heard) then
                          if Ends(t.heard) || sn == job.count then Exchanged([], 0, now)
                          else Exchange(job, line, ticks, sn + 1, 3, now)
                        else if left == 1 then Exchanged([], -1, now)
                        else Exchange(job, line, ticks, sn, left - 1, now))
  {
    var l := Listen(line, clock, ticks);
    t, now := Try(sn, job.Framed(sn), l.heard), l.clock;
    rest := if Accepts(job.cmd, t.heard) then
              if Ends(t.heard) || sn == job.count then Exchanged([], 0, now)
              else Exchange(job, line, ticks, sn + 1, 3, now)
            else if left == 1 then Exchanged([], -1, now)
            else Exchange(job, line, ticks, sn, left - 1, now);
  }

  /** Each transmission is a fragment of the message, and they come in order. */
  lemma {:induction false} SentInOrder(job: Job, line: Line, ticks: nat, sn: nat, left: nat, clock: nat)
    requires job.Ready() && 1 <= sn <= job.count && left > 0
    ensures var tries := Exchange(job, line, ticks, sn, left, clock).tries;
            && tries != [] && tries[0].sn == sn
            && (forall i :: 0 <= i < |tries| ==> Genuine(job, tries[i]))
            && (forall i :: 0 < i < |tries| ==> Follows(job, tries[i - 1], tries[i]))
    decreases job.count - sn, left
  {
    var t, rest, now := ExchangeUnfolds(job, line, ticks, sn, left, clock);
    assert Genuine(job, t);
    hide Exchange, Genuine, Follows, Accepts, Ends;
    var tries := Exchange(job, line, ticks, sn, left, clock).tries;
    assert tries == [t] + rest.tries;
    if Accepts(job.cmd, t.heard) && !Ends(t.heard) && sn < job.count {
      SentInOrder(job, line, ticks, sn + 1, 3, now);
      FollowsNext(job, t, rest.tries[0]);
    } else if !Accepts(job.cmd, t.heard) && left > 1 {
      SentInOrder(job, line, ticks, sn, left - 1, now);
      FollowsNext(job, t, rest.tries[0]);
    }
  }

  lemma FollowsNext(job: Job, t: Try, u: Try)
    requires if Accepts(job.cmd, t.heard) then u.sn == t.sn + 1 && !Ends(t.heard) else u.sn == t.sn
    ensures Follows(job, t, u)
  {
  }

  /** Each of them is the frame its message demands: addressed, marked and cut by the
      length of the message alone. */
  lemma SentFrames(job: Job, line: Line, ticks: nat, sn: nat, left: nat, clock: nat, i: nat)
    requires job.Ready() && 1 <= sn <= job.count && left > 0
    requires i < |Exchange(job, line, ticks, sn, left, clock).tries|
    ensures var t := Exchange(job, line, ticks, sn, left, clock).tries[i];
            && 1 <= t.sn <= job.count
            && t.frame.stx == (if |job.data| <= job.psize then 0x02 else 0x16)
            && t.frame.etx == (if t.sn * job.psize >= |job.data| then 0x03 else 0x17)
            && t.frame.cmd == job.cmd && t.frame.remote == job.remote
            && t.frame.payload == job.Payload(t.sn)
  {
    SentInOrder(job, line, ticks, sn, left, clock);
    var t := Exchange(job, line, ticks, sn, left, clock).tries[i];
    hide Exchange;
    assert Genuine(job, t);
    job.FrameMarks(t.sn);
  }

  /** The same of a run of mode M3, whose frames are also numbered. */
  lemma NumberedFrames(job: Job, n: nat, i: nat)
    requires job.Ready() && i < n <= job.count
    ensures |job.Numbered(n)| == n
    ensures var f := job.Numbered(n)[i];
            && f.sn == i + 1 && f.total == job.count
            && f.frame.stx == (if |job.data| <= job.psize then 0x02 else 0x16)
            && f.frame.etx == (if f.sn * job.psize >= |job.data| then 0x03 else 0x17)
            && f.frame.cmd == job.cmd && f.frame.remote == job.remote
            && f.frame.payload == job.Payload(i + 1)
  {
    NumberedPayloads(job, n);
    job.FrameMarks(i + 1);
  }

  /** Every transmission hears what the link delivers in its own ticks, which begin where
      those of the one before end. */
  predicate HeardInTurn(line: Line, ticks: nat, tries: seq<Try>, clock: nat, end: nat) {
    if tries == [] then clock == end
    else
      var l := Listen(line, clock, ticks);
      tries[0].heard == l.heard && HeardInTurn(line, ticks, tries[1..], l.clock, end)
  }

  lemma {:induction false} ExchangeListens(job: Job, line: Line, ticks: nat, sn: nat, left: nat, clock: nat)
    requires job.Ready() && 1 <= sn <= job.count && left > 0
    ensures var e := Exchange(job, line, ticks, sn, left, clock);
            HeardInTurn(line, ticks, e.tries, clock, e.clock)
    decreases job.count - sn, left
  {
    var l := Listen(line, clock, ticks);
    var t := Try(sn, job.Framed(sn), l.heard);
    ExchangeOnce(job, line, ticks, sn, left, clock);
    hide Exchange, Listen, Accepts, Ends;
    if Accepts(job.cmd, l.heard) && !Ends(l.heard) && sn < job.count {
      ExchangeListens(job, line, ticks, sn + 1, 3, l.clock);
      assert ([t] + Exchange(job, line, ticks, sn + 1, 3, l.clock).tries)[1..]
          == Exchange(job, line, ticks, sn + 1, 3, l.clock).tries;
    } else if !Accepts(job.cmd, l.heard) && left > 1 {
      ExchangeListens(job, line, ticks, sn, left - 1, l.clock);
      assert ([t] + Exchange(job, line, ticks, sn, left - 1, l.clock).tries)[1..]
          == Exchange(job, line, ticks, sn, left - 1, l.clock).tries;
    } else {
      assert [t][1..] == [];
    }
  }

  lemma ExchangeOnce(job: Job, line: Line, ticks: nat, sn: nat, left: nat, clock: nat)
    requires job.Ready() && 1 <= sn <= job.count && left > 0
    ensures var l := Listen(line, clock, ticks);
            var t := [Try(sn, job.Framed(sn), l.heard)];
            Exchange(job, line, ticks, sn, left, clock) ==
            if Accepts(job.cmd, l.heard) then
              if Ends(l.heard) || sn == job.count then Exchanged(t, 0, l.clock)
              else After(t, Exchange(job, line, ticks, sn + 1, 3, l.clock))
            else if left == 1 then Exchanged(t, -1, l.clock)
            else After(t, Exchange(job, line, ticks, sn, left - 1, l.clock))
  {
  }

  /** An exchange takes no longer than its transmissions: each at most 10 ms more than the
      time allowed, and one that hears nothing more than that time. */
  lemma {:induction false} TimeTaken(line: Line, ms: nat, tries: seq<Try>, clock: nat, end: nat)
    requires HeardInTurn(line, Ticks(ms), tries, clock, end)
    ensures clock <= end && 10 * (end - clock) <= |tries| * (ms + 10)
    ensures tries != [] && (forall i :: 0 <= i < |tries| ==> tries[i].heard == None) ==> 10 * (end - clock) > ms
  {
    if tries != [] {
      var l := Listen(line, clock, Ticks(ms));
      HeardFirst(line, clock, Ticks(ms));
      TimeTaken(line, ms, tries[1..], l.clock, end);
      hide Listen, HeardInTurn;
      OneMoreTry(|tries[1..]|, ms + 10);
    }
  }

  lemma OneMoreTry(n: nat, ms: nat)
    ensures (n + 1) * ms == n * ms + ms
  {
  }

  /** Transmissions of fragment `n`. */
  function Sends(tries: seq<Try>, n: nat): nat {
    if tries == [] then 0 else (if tries[0].sn == n then 1 else 0) + Sends(tries[1..], n)
  }

  /** Those that were not acknowledged. */
  function Refusals(job: Job, tries: seq<Try>, n: nat): nat {
    if tries == [] then 0
    else (if tries[0].sn == n && !Accepts(job.cmd, tries[0].heard) then 1 else 0) + Refusals(job, tries[1..], n)
  }

  lemma Counts(job: Job, t: Try, tries: seq<Try>, n: nat)
    ensures Sends([t] + tries, n) == (if t.sn == n then 1 else 0) + Sends(tries, n)
    ensures Refusals(job, [t] + tries, n) ==
            (if t.sn == n && !Accepts(job.cmd, t.heard) then 1 else 0) + Refusals(job, tries, n)
  {
    assert ([t] + tries)[1..] == tries;
  }

  /** No fragment is sent more than three times, and the exchange fails exactly when some
      fragment was sent three times without being acknowledged. */
  lemma {:induction false} SentThriceAtMost(job: Job, line: Line, ticks: nat, sn: nat, left: nat, clock: nat, n: nat)
    requires job.Ready() && 1 <= sn <= job.count && 0 < left <= 3
    ensures var e := Exchange(job, line, ticks, sn, left, clock);
            && Sends(e.tries, n) <= (if n < sn then 0 else if n == sn then left else 3)
            && Refusals(job, e.tries, n) <= Sends(e.tries, n)
            && (e.result == 0 || e.result == -1)
            && (e.result == 0 ==> Refusals(job, e.tries, n) < if n == sn then left else 3)
    decreases job.count - sn, left
  {
    var t, rest, now := ExchangeUnfolds(job, line, ticks, sn, left, clock);
    hide Exchange, Accepts, Ends;
    Counts(job, t, rest.tries, n);
    if Accepts(job.cmd, t.heard) && !Ends(t.heard) && sn < job.count {
      SentThriceAtMost(job, line, ticks, sn + 1, 3, now, n);
    } else if !Accepts(job.cmd, t.heard) && left > 1 {
      SentThriceAtMost(job, line, ticks, sn, left - 1, now, n);
    }
  }

  lemma {:induction false} FailureExplained(job: Job, line: Line, ticks: nat, sn: nat, left: nat, clock: nat)
    returns (n: nat)
    requires job.Ready() && 1 <= sn <= job.count && 0 < left <= 3
    ensures var e := Exchange(job, line, ticks, sn, left, clock);
            e.result == -1 ==> sn <= n <= job.count && Refusals(job, e.tries, n) == if n == sn then left else 3
    decreases job.count - sn, left
  {
    var t, rest, now := ExchangeUnfolds(job, line, ticks, sn, left, clock);
    hide Exchange, Accepts, Ends;
    n := sn;
    if Accepts(job.cmd, t.heard) && !Ends(t.heard) && sn < job.count {
      n := FailureExplained(job, line, ticks, sn + 1, 3, now);
    } else if !Accepts(job.cmd, t.heard) && left > 1 {
      n := FailureExplained(job, line, ticks, sn, left - 1, now);
    }
    Counts(job, t, rest.tries, n);
  }

  function Last(tries: seq<Try>): Try
    requires tries != []
  {
    tries[|tries| - 1]
  }

  /** The payloads the other side has acknowledged. */
  function Delivered(job: Job, tries: seq<Try>): seq<byte> {
    if tries == [] then []
    else (if Accepts(job.cmd, tries[0].heard) then tries[0].frame.payload else []) + Delivered(job, tries[1..])
  }

  /** What the last transmission says about the result. */
  lemma {:induction false} LastDecides(job: Job, line: Line, ticks: nat, sn: nat, left: nat, clock: nat)
    requires job.Ready() && 1 <= sn <= job.count && left > 0
    ensures var e := Exchange(job, line, ticks, sn, left, clock);
            && e.tries != [] && sn <= Last(e.tries).sn <= job.count
            && (e.result == 0 <==> Last(e.tries).heard.Some? && Last(e.tries).heard.value.cmd == job.cmd)
            && (e.result == 0 && Last(e.tries).sn < job.count ==>
                  Last(e.tries).heard.value.etx == 0x04 || Last(e.tries).heard.value.etx == 0x1B)
    decreases job.count - sn, left
  {
    var t, rest, now := ExchangeUnfolds(job, line, ticks, sn, left, clock);
    hide Exchange, Accepts, Ends;
    if Accepts(job.cmd, t.heard) && !Ends(t.heard) && sn < job.count {
      LastDecides(job, line, ticks, sn + 1, 3, now);
    } else if !Accepts(job.cmd, t.heard) && left > 1 {
      LastDecides(job, line, ticks, sn, left - 1, now);
    }
  }

  /** Fragments acknowledged when an exchange is over: those before the last one sent,
      and that one too if the exchange succeeded. */
  function Acked(e: Exchanged): int
    requires e.tries != []
  {
    if e.result == 0 then Last(e.tries).sn else Last(e.tries).sn - 1
  }

  ghost predicate DeliveredFrom(job: Job, sn: nat, e: Exchanged)
    requires job.Ready() && 1 <= sn <= job.count + 1
  {
    && e.tries != [] && 0 <= Acked(e) <= job.count
    && job.Joined(sn - 1) + Delivered(job, e.tries) == job.Joined(Acked(e))
  }

  lemma DeliveredCons(job: Job, t: Try, rest: Exchanged)
    requires job.Ready() && 1 <= t.sn <= job.count && t.frame == job.Framed(t.sn)
    requires DeliveredFrom(job, if Accepts(job.cmd, t.heard) then t.sn + 1 else t.sn, rest)
    ensures DeliveredFrom(job, t.sn, After([t], rest))
  {
    hide Accepts, PacketCount, Ends, Job.Framed, Job.Joined;
    var tries := [t] + rest.tries;
    assert tries[1..] == rest.tries && Last(tries) == Last(rest.tries);
    JoinedStep(job, t.sn);
    PayloadMoves(job.Joined(t.sn - 1), t.frame.payload, Delivered(job, rest.tries));
  }

  lemma JoinedStep(job: Job, sn: nat)
    requires job.Ready() && 1 <= sn <= job.count
    ensures job.Joined(sn) == job.Joined(sn - 1) + job.Framed(sn).payload
  {
  }

  lemma PayloadMoves(a: seq<byte>, b: seq<byte>, c: seq<byte>)
    ensures a + (b + c) == (a + b) + c
    ensures a + ([] + c) == a + c
  {
  }

  lemma DeliveredOne(job: Job, t: Try, result: int, clock: nat)
    requires job.Ready() && 1 <= t.sn <= job.count && t.frame == job.Framed(t.sn)
    requires result == 0 <==> Accepts(job.cmd, t.heard)
    ensures DeliveredFrom(job, t.sn, Exchanged([t], result, clock))
  {
    hide Accepts, PacketCount;
    assert [t][1..] == [];
    assert Delivered(job, [t]) == if Accepts(job.cmd, t.heard) then t.frame.payload else [];
    assert job.Joined(t.sn) == job.Joined(t.sn - 1) + t.frame.payload;
  }

  /** The payloads acknowledged are the first fragments of the message, each once. */
  lemma {:induction false} DeliveredInOrder(job: Job, line: Line, ticks: nat, sn: nat, left: nat, clock: nat)
    requires job.Ready() && 1 <= sn <= job.count && left > 0
    ensures DeliveredFrom(job, sn, Exchange(job, line, ticks, sn, left, clock))
    decreases job.count - sn, left
  {
    var t, rest, now := ExchangeUnfolds(job, line, ticks, sn, left, clock);
    hide Exchange, Accepts, Ends, DeliveredFrom, PacketCount, Job.Framed, Job.Joined, Delivered, Last, Acked, Genuine;
    if Accepts(job.cmd, t.heard) && !Ends(t.heard) && sn < job.count {
      DeliveredInOrder(job, line, ticks, sn + 1, 3, now);
      DeliveredCons(job, t, rest);
    } else if !Accepts(job.cmd, t.heard) && left > 1 {
      DeliveredInOrder(job, line, ticks, sn, left - 1, now);
      DeliveredCons(job, t, rest);
    } else {
      DeliveredOne(job, t, rest.result, now);
      assert [t] + [] == [t];
    }
  }

  /** Every whole exchange: order, number of transmissions, and what the result means. */
  lemma ExchangeSafety(job: Job, line: Line, ms: int, clock: nat, n: nat)
    requires job.Ready()
    ensures job.count >= 1
    ensures var e := Exchange(job, line, Ticks(ms), 1, 3, clock);
            && Sends(e.tries, n) <= 3
            && (e.result == 0 || e.result == -1)
            && (e.result == -1 <==> exists k | 1 <= k <= job.count :: Refusals(job, e.tries, k) == 3)
            && e.tries != []
            && (e.result == 0 ==>
                  && Last(e.tries).heard.Some?
                  && (|| Last(e.tries).heard.value.etx == 0x04 || Last(e.tries).heard.value.etx == 0x1B
                      || Delivered(job, e.tries) == job.data))
  {
    CountPositive(|job.data|, job.psize);
    hide Exchange, Ends;
    var e := Exchange(job, line, Ticks(ms), 1, 3, clock);
    SentThriceAtMost(job, line, Ticks(ms), 1, 3, clock, n);
    var k := FailureExplained(job, line, Ticks(ms), 1, 3, clock);
    forall k | 1 <= k <= job.count
      ensures e.result == 0 ==> Refusals(job, e.tries, k) != 3
    {
      SentThriceAtMost(job, line, Ticks(ms), 1, 3, clock, k);
    }
    LastDecides(job, line, Ticks(ms), 1, 3, clock);
    DeliveredInOrder(job, line, Ticks(ms), 1, 3, clock);
    job.JoinedIsPrefix(job.count);
    assert [] + Delivered(job, e.tries) == Delivered(job, e.tries);
  }
}

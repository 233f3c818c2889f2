/** The record/release cycle of a report: `BaoBase` and, when `jia` holds, its
    override `JiaBaoBase` (Ibao.hpp). */
module Reports {
  import opened Schedule
  import Fields

  /** What a poll does to the outside: a record is saved, or released for reporting. */
  datatype Event = Recorded(time: int, code: string) | Released

  datatype State = State(
    seconds: int, recordDelays: int, reportDelays: int,
    recordEnable: bool, reportEnable: bool,
    lastRecord: int, lastReport: int, code: string)

  /** The clock as the two checks and the save read it. */
  datatype Clock = Clock(check: int, save: int, report: int)

  datatype Command =
    | Poll(clock: Clock, flags: seq<string>)
    | SetInterval(seconds: int, recordDelays: int, reportDelays: int)
    | ReportCheck(reset: bool)

  datatype Step = Step(state: State, events: seq<Event>)

  /** The remainder of C. */
  function Remainder(x: int, n: int): int
    requires n != 0
  {
    x - Quotient(x, n) * n
  }

  /** The first half of `poll`: check and record. */
  function RecordStep(jia: bool, s: State, clock: Clock, flags: seq<string>): Step {
    if s.seconds < 60 || s.recordEnable || !Fires(s.lastRecord, clock.check, s.seconds, s.recordDelays) then Step(s, [])
    else
      var fired := s.(lastRecord := clock.check);
      if jia && flags == [] then Step(fired, [])
      else
        var t := fired.(recordEnable := true, code := if jia then Fields.Merged(flags, " ") else s.code);
        Step(t, [Recorded(clock.save - Remainder(clock.save, s.seconds), t.code)])
  }

  /** The second half: release. */
  function ReleaseStep(s: State, clock: Clock): Step {
    var t := if s.seconds < 60 then s.(reportEnable := false) else s;
    if t.recordEnable && Fires(t.lastReport, clock.report, t.seconds, t.reportDelays)
    then Step(t.(lastReport := clock.report, recordEnable := false, reportEnable := true), [Released])
    else Step(t, [])
  }

  function Apply(jia: bool, s: State, c: Command): Step {
    match c
    case Poll(clock, flags) =>
      var first := RecordStep(jia, s, clock, flags);
      var second := ReleaseStep(first.state, clock);
      Step(second.state, first.events + second.events)
    case SetInterval(seconds, recordDelays, reportDelays) =>
      Step(s.(seconds := seconds, recordDelays := recordDelays, reportDelays := reportDelays), [])
    case ReportCheck(reset) => Step(if reset then s.(reportEnable := false) else s, [])
  }

  class BaoBase {
    const jia: bool
    var recordSeconds: int
    var recordDelays: int
    var reportDelays: int
    var recordEnable: bool
    var reportEnable: bool
    var lastRecordCheck: int
    var lastReportCheck: int
    var code: string
    /** What has been saved and released so far. */
    var log: seq<Event>

    function Current(): State
      reads this
    {
      State(recordSeconds, recordDelays, reportDelays, recordEnable, reportEnable,
            lastRecordCheck, lastReportCheck, code)
    }

    constructor (jia: bool, now: int)
      ensures this.jia == jia && log == []
      ensures Current() == State(0, 0, 0, false, false, now, now, "")
    {
      this.jia := jia;
      recordSeconds, recordDelays, reportDelays := 0, 0, 0;
      recordEnable, reportEnable, code, log := false, false, "", [];
      lastRecordCheck, lastReportCheck := now, now;
    }

    /** `record_check`, and what JiaBaoBase puts in its place. */
    method RecordCheck(now: int, flags: seq<string>) returns (due: bool)
      modifies this`lastRecordCheck, this`code
      ensures var s := old(Current());
              var fires := s.seconds >= 60 && !s.recordEnable && Fires(s.lastRecord, now, s.seconds, s.recordDelays);
              && due == (fires && (jia ==> flags != []))
              && Current() == s.(lastRecord := if fires then now else s.lastRecord,
                                 code := if due && jia then Fields.Merged(flags, " ") else s.code)
    {
      if recordSeconds < 60 {
        return false;
      }
      if !recordEnable {
        var fires;
        fires, lastRecordCheck := CheckTime(lastRecordCheck, now, recordSeconds, recordDelays);
        if fires {
          if jia {
            if |flags| > 0 {
              code := Fields.ListMerge(flags, " ");
              return true;
            }
          } else {
            return true;
          }
        }
      }
      return false;
    }

    method Record(now: int)
      requires recordSeconds != 0
      modifies this`log
      ensures log == old(log) + [Recorded(now - Remainder(now, recordSeconds), code)]
    {
      var t := now;
      t := t - Remainder(t, recordSeconds);
      log := log + [Recorded(t, code)];
    }

    method Polled(clock: Clock, flags: seq<string>)
      modifies this
      ensures var step := Apply(jia, old(Current()), Poll(clock, flags));
              Current() == step.state && log == old(log) + step.events
    {
      hide Fires, Remainder, Fields.Merged, RecordStep, ReleaseStep;
      RecordHalf(clock, flags);
      ReleaseHalf(clock);
    }

    /** `poll` up to the record. */
    method RecordHalf(clock: Clock, flags: seq<string>)
      modifies this`lastRecordCheck, this`code, this`log, this`recordEnable
      ensures var step := RecordStep(jia, old(Current()), clock, flags);
              Current() == step.state && log == old(log) + step.events
    {
      hide Fires, Remainder, Fields.Merged;
      var due := RecordCheck(clock.check, flags);
      if due {
        Record(clock.save);
        recordEnable := true;
      }
    }

    /** The rest of `poll`. */
    method ReleaseHalf(clock: Clock)
      modifies this`reportEnable, this`lastReportCheck, this`recordEnable, this`log
      ensures var step := ReleaseStep(old(Current()), clock);
              Current() == step.state && log == old(log) + step.events
    {
      hide Fires;
      if recordSeconds < 60 {
        reportEnable := false;
      }
      if recordEnable {
        var fires;
        fires, lastReportCheck := CheckTime(lastReportCheck, clock.report, recordSeconds, reportDelays);
        if fires {
          recordEnable := false;
          reportEnable := true;
          log := log + [Released];
        }
      }
    }

    /** `set_interval` */
    method Intervals(seconds: int, recordDelays: int, reportDelays: int)
      modifies this
      ensures Current() == Apply(jia, old(Current()), SetInterval(seconds, recordDelays, reportDelays)).state
      ensures recordSeconds == seconds && this.recordDelays == recordDelays && this.reportDelays == reportDelays
      ensures recordEnable == old(recordEnable) && reportEnable == old(reportEnable)
      ensures lastRecordCheck == old(lastRecordCheck) && lastReportCheck == old(lastReportCheck)
      ensures code == old(code) && log == old(log)
    {
      recordSeconds := seconds;
      this.recordDelays := recordDelays;
      this.reportDelays := reportDelays;
    }

    method CheckReport(reset: bool) returns (enabled: bool)
      modifies this`reportEnable
      ensures Current() == Apply(jia, old(Current()), ReportCheck(reset)).state
      ensures enabled == reportEnable == (old(reportEnable) && !reset)
    {
      if reset {
        reportEnable := false;
      }
      return reportEnable;
    }
  }

  // ---------- when a record is made, and when it is released ----------

  /** A record is made by a poll exactly when the interval is at least a minute, none is
      pending, a boundary of the record delays is seen since the check that fired last,
      and, for an additional report, there are flags. */
  lemma RecordedIff(jia: bool, s: State, clock: Clock, flags: seq<string>)
    requires s.seconds >= 60 ==> Fits(s.lastRecord, s.seconds, s.recordDelays)
    ensures var step := RecordStep(jia, s, clock, flags);
            && (step.events != [] <==>
                  && s.seconds >= 60 && !s.recordEnable && (jia ==> flags != [])
                  && exists n :: Seen(n, s.lastRecord, clock.check, s.seconds, s.recordDelays))
            && (step.events != [] ==> |step.events| == 1 && step.events[0].Recorded?)
            && step.state.recordEnable == (s.recordEnable || step.events != [])
            && step.state.lastRecord == (
                 if s.seconds >= 60 && !s.recordEnable
                    && exists n :: Seen(n, s.lastRecord, clock.check, s.seconds, s.recordDelays)
                 then clock.check else s.lastRecord)
            && step.state == s.(recordEnable := step.state.recordEnable, lastRecord := step.state.lastRecord,
                                code := if jia && step.events != [] then Fields.Merged(flags, " ") else s.code)
  {
    if s.seconds >= 60 {
      FiresExactly(s.lastRecord, clock.check, s.seconds, s.recordDelays);
    }
    hide Fires, Seen, Remainder, Fields.Merged;
  }

  lemma ReleasedIff(s: State, clock: Clock)
    requires s.seconds > 0 ==> Fits(s.lastReport, s.seconds, s.reportDelays)
    requires s.seconds < 0 ==> FitsDown(s.lastReport, s.seconds, s.reportDelays) && s.lastReport <= clock.report
    ensures var step := ReleaseStep(s, clock);
            && (step.events != [] <==>
                  && s.recordEnable && s.seconds > 0
                  && exists n :: Seen(n, s.lastReport, clock.report, s.seconds, s.reportDelays))
            && (step.events != [] ==> step.events == [Released])
            && step.state == s.(recordEnable := s.recordEnable && step.events == [],
                                lastReport := if step.events != [] then clock.report else s.lastReport,
                                reportEnable := step.events != [] || (s.reportEnable && s.seconds >= 60))
  {
    if s.seconds > 0 {
      FiresExactly(s.lastReport, clock.report, s.seconds, s.reportDelays);
    } else if s.seconds < 0 {
      NeverFires(s.lastReport, clock.report, s.seconds, s.reportDelays);
    }
    hide Seen, Fits, FitsDown, Quotient, Narrowed;
  }

  /** What a poll does, by the boundaries it sees: a pending record, or one made just now,
      is released exactly when a boundary of the report delays is seen. */
  lemma PollDecides(jia: bool, s: State, clock: Clock, flags: seq<string>)
    requires s.seconds >= 60 ==> Fits(s.lastRecord, s.seconds, s.recordDelays)
    requires s.seconds > 0 ==> Fits(s.lastReport, s.seconds, s.reportDelays)
    requires s.seconds < 0 ==> FitsDown(s.lastReport, s.seconds, s.reportDelays) && s.lastReport <= clock.report
    ensures var step := Apply(jia, s, Poll(clock, flags));
            var made := && s.seconds >= 60 && !s.recordEnable && (jia ==> flags != [])
                        && exists n :: Seen(n, s.lastRecord, clock.check, s.seconds, s.recordDelays);
            var released := && (s.recordEnable || made) && s.seconds > 0
                            && exists n :: Seen(n, s.lastReport, clock.report, s.seconds, s.reportDelays);
            && (made <==> exists e :: e in step.events && e.Recorded?)
            && (released <==> Released in step.events)
            && |step.events| == (if made then 1 else 0) + (if released then 1 else 0)
            && step.state.recordEnable == ((s.recordEnable || made) && !released)
            && step.state.reportEnable == (released || (s.reportEnable && s.seconds >= 60))
            && step.state.lastReport == (if released then clock.report else s.lastReport)
            && (made ==> step.state.lastRecord == clock.check)
            && (jia && made ==> step.state.code == Fields.Merged(flags, " "))
  {
    var first := RecordStep(jia, s, clock, flags);
    RecordedIff(jia, s, clock, flags);
    ReleasedIff(first.state, clock);
    hide RecordStep, ReleaseStep, Seen, Fits, FitsDown;
    if first.events != [] {
      assert first.events[0] in Apply(jia, s, Poll(clock, flags)).events;
    }
  }

  /** Delays 3 and 10 of an interval of five minutes, polled at 303: the record is made and
      stays pending until 310. */
  lemma PendingUntilDue()
    ensures var s := State(300, 3, 10, false, false, 150, 150, "");
            Apply(false, s, Poll(Clock(303, 303, 303), [])).events == [Recorded(300, "")]
  {
    var s := State(300, 3, 10, false, false, 150, 150, "");
    assert Fires(150, 303, 300, 3) && !Fires(150, 303, 300, 10);
    assert Remainder(303, 300) == 3;
    hide Fires, Remainder;
    var first := RecordStep(false, s, Clock(303, 303, 303), []);
    assert first.events == [Recorded(300, "")];
    assert ReleaseStep(first.state, Clock(303, 303, 303)).events == [];
  }

  // ---------- every run ----------

  function Run(jia: bool, s: State, commands: seq<Command>): Step {
    if commands == [] then Step(s, [])
    else
      var n := |commands| - 1;
      var before := Run(jia, s, commands[..n]);
      var last := Apply(jia, before.state, commands[n]);
      Step(last.state, before.events + last.events)
  }

  /** A record, its release, the next record, and so on. */
  predicate Alternates(log: seq<Event>) {
    forall i :: 0 <= i < |log| ==> log[i].Recorded? == (i % 2 == 0)
  }

  function Records(log: seq<Event>): int {
    if log == [] then 0 else Records(log[..|log| - 1]) + if log[|log| - 1].Recorded? then 1 else 0
  }

  function Releases(log: seq<Event>): int {
    |log| - Records(log)
  }

  lemma StepAlternates(jia: bool, s: State, c: Command, log: seq<Event>)
    requires Alternates(log) && s.recordEnable == (|log| % 2 == 1)
    ensures var step := Apply(jia, s, c);
            Alternates(log + step.events) && step.state.recordEnable == (|log + step.events| % 2 == 1)
  {
    hide Fires, Remainder, Fields.Merged;
  }

  lemma {:induction false} CountsAlternating(log: seq<Event>)
    requires Alternates(log)
    ensures Records(log) - Releases(log) == |log| % 2
  {
    if log != [] {
      CountsAlternating(log[..|log| - 1]);
    }
  }

  /** In every run, from a start without a pending record, records and releases
      alternate, starting with a record: one is outstanding exactly when
      `record_enable` holds. */
  lemma {:induction false} RunAlternates(jia: bool, s: State, commands: seq<Command>)
    requires !s.recordEnable
    ensures var run := Run(jia, s, commands);
            && Alternates(run.events)
            && Records(run.events) - Releases(run.events) == if run.state.recordEnable then 1 else 0
    decreases |commands|
  {
    RunParity(jia, s, commands);
    CountsAlternating(Run(jia, s, commands).events);
  }

  lemma NothingAlternates()
    ensures Alternates([])
  {
  }

  lemma {:induction false} RunParity(jia: bool, s: State, commands: seq<Command>)
    requires !s.recordEnable
    ensures var run := Run(jia, s, commands);
            Alternates(run.events) && run.state.recordEnable == (|run.events| % 2 == 1)
    decreases |commands|
  {
    hide Apply, Alternates;
    if commands == [] {
      NothingAlternates();
    } else {
      var n := |commands| - 1;
      RunParity(jia, s, commands[..n]);
      var before := Run(jia, s, commands[..n]);
      StepAlternates(jia, before.state, commands[n], before.events);
    }
  }

  /** The time of the latest poll. */
  function LatestPoll(s: State, commands: seq<Command>): int {
    if commands == [] then s.lastRecord
    else
      var c := commands[|commands| - 1];
      if c.Poll? then c.clock.check else LatestPoll(s, commands[..|commands| - 1])
  }

  /** The interval stays, and the clock does not go back. */
  ghost predicate Steady(s: State, commands: seq<Command>)
  {
    commands == [] ||
    var n := |commands| - 1;
    && Steady(s, commands[..n])
    && !commands[n].SetInterval?
    && (commands[n].Poll? ==> LatestPoll(s, commands[..n]) <= commands[n].clock.check)
  }

  lemma RecordWithinBoundaries(jia: bool, s: State, clock: Clock, flags: seq<string>)
    requires s.seconds >= 60 && s.lastRecord <= clock.check
    requires INT_MIN <= Passed(s.lastRecord, s.seconds, s.recordDelays)
    requires Passed(clock.check, s.seconds, s.recordDelays) < INT_MAX
    ensures var t := RecordStep(jia, s, clock, flags);
            && t.state.seconds == s.seconds && t.state.recordDelays == s.recordDelays
            && (t.state.lastRecord == s.lastRecord || t.state.lastRecord == clock.check)
            && |t.events| <= 1
            && |t.events| <= Passed(t.state.lastRecord, s.seconds, s.recordDelays)
                             - Passed(s.lastRecord, s.seconds, s.recordDelays)
  {
    hide Fires, Passed, Due, Remainder, Fields.Merged;
    PassedMonotone(s.lastRecord, clock.check, s.seconds, s.recordDelays);
    PassedFits(s.lastRecord, s.seconds, s.recordDelays);
    FiresWhenPassed(s.lastRecord, clock.check, s.seconds, s.recordDelays);
  }

  lemma ReleaseRecordsNothing(s: State, clock: Clock)
    ensures var t := ReleaseStep(s, clock);
            && t.state.seconds == s.seconds && t.state.recordDelays == s.recordDelays
            && t.state.lastRecord == s.lastRecord
            && |t.events| <= 1 && Records(t.events) == 0
  {
    hide Fires;
  }

  lemma StepWithinBoundaries(jia: bool, s: State, c: Command)
    requires s.seconds >= 60 && !c.SetInterval? && INT_MIN <= Passed(s.lastRecord, s.seconds, s.recordDelays)
    requires c.Poll? ==> s.lastRecord <= c.clock.check && Passed(c.clock.check, s.seconds, s.recordDelays) < INT_MAX
    ensures var t := Apply(jia, s, c);
            && t.state.seconds == s.seconds && t.state.recordDelays == s.recordDelays
            && s.lastRecord <= t.state.lastRecord
            && (t.state.lastRecord == s.lastRecord || (c.Poll? && t.state.lastRecord == c.clock.check))
            && Records(t.events) <= Passed(t.state.lastRecord, s.seconds, s.recordDelays)
                                    - Passed(s.lastRecord, s.seconds, s.recordDelays)
  {
    hide RecordStep, ReleaseStep, Passed, Records;
    NoRecords();
    if c.Poll? {
      RecordWithinBoundaries(jia, s, c.clock, c.flags);
      var first := RecordStep(jia, s, c.clock, c.flags);
      ReleaseRecordsNothing(first.state, c.clock);
      RecordsAdd(first.events, ReleaseStep(first.state, c.clock).events);
      RecordsOfStep(first.events);
    }
  }

  lemma NoRecords()
    ensures Records([]) == 0
  {
  }

  lemma RecordsOfStep(events: seq<Event>)
    requires |events| <= 1
    ensures Records(events) == if |events| == 1 && events[0].Recorded? then 1 else 0
  {
  }

  lemma {:induction false} RecordsAdd(a: seq<Event>, b: seq<Event>)
    ensures Records(a + b) == Records(a) + Records(b)
    decreases |b|
  {
    if b == [] {
      assert a + b == a;
    } else {
      var n := |b| - 1;
      assert (a + b)[..|a + b| - 1] == a + b[..n];
      RecordsAdd(a, b[..n]);
    }
  }

  /** While the interval stays, every record has used up a boundary of its own: there are
      at most as many records as boundaries since the start. */
  lemma {:induction false} RecordsWithinBoundaries(jia: bool, s: State, commands: seq<Command>)
    requires s.seconds >= 60 && Steady(s, commands)
    requires INT_MIN <= Passed(s.lastRecord, s.seconds, s.recordDelays)
    requires Passed(LatestPoll(s, commands), s.seconds, s.recordDelays) < INT_MAX
    ensures var run := Run(jia, s, commands);
            && run.state.seconds == s.seconds && run.state.recordDelays == s.recordDelays
            && s.lastRecord <= run.state.lastRecord <= LatestPoll(s, commands)
            && Records(run.events) <=
               Passed(run.state.lastRecord, s.seconds, s.recordDelays) - Passed(s.lastRecord, s.seconds, s.recordDelays)
            && Passed(run.state.lastRecord, s.seconds, s.recordDelays) <=
               Passed(LatestPoll(s, commands), s.seconds, s.recordDelays)
    decreases |commands|
  {
    hide Apply, Passed, Due;
    if commands != [] {
      var n := |commands| - 1;
      LatestPollLater(s, commands[..n]);
      PassedMonotone(LatestPoll(s, commands[..n]), LatestPoll(s, commands), s.seconds, s.recordDelays);
      RecordsWithinBoundaries(jia, s, commands[..n]);
      var before := Run(jia, s, commands[..n]);
      PassedMonotone(s.lastRecord, before.state.lastRecord, s.seconds, s.recordDelays);
      StepWithinBoundaries(jia, before.state, commands[n]);
      var last := Apply(jia, before.state, commands[n]);
      RecordsAdd(before.events, last.events);
      PassedMonotone(last.state.lastRecord, LatestPoll(s, commands), s.seconds, s.recordDelays);
    }
  }

  lemma {:induction false} LatestPollLater(s: State, commands: seq<Command>)
    requires Steady(s, commands)
    ensures s.lastRecord <= LatestPoll(s, commands)
    decreases |commands|
  {
    if commands != [] {
      LatestPollLater(s, commands[..|commands| - 1]);
    }
  }

  lemma Multiple(t: int, q: int, cycle: int)
    requires cycle > 0 && q == Quotient(t, cycle)
    ensures t >= 0 ==> q * cycle <= t < q * cycle + cycle
    ensures t < 0 ==> q * cycle - cycle < t <= q * cycle
  {
    if t >= 0 {
      Division(t, cycle);
    } else {
      Division(-t, cycle);
      assert q * cycle == -(-t / cycle * cycle);
    }
  }

  /** A record carries the start of the cycle it is saved in; before the epoch, its end. */
  lemma RecordedAtCycleStart(jia: bool, s: State, clock: Clock, flags: seq<string>)
    requires RecordStep(jia, s, clock, flags).events != []
    ensures var e := RecordStep(jia, s, clock, flags).events[0];
            && e.Recorded? && (exists n :: e.time == Boundary(n, s.seconds, 0))
            && (clock.save >= 0 ==> e.time <= clock.save < e.time + s.seconds)
            && (clock.save < 0 ==> e.time - s.seconds < clock.save <= e.time)
  {
    hide Fires, Fields.Merged;
    var n := Quotient(clock.save, s.seconds);
    Multiple(clock.save, n, s.seconds);
    hide Quotient;
    assert RecordStep(jia, s, clock, flags).events[0].time == Boundary(n, s.seconds, 0);
  }

  /** The flags of an additional report can be read back from its code. */
  lemma CodeSplits(s: State, clock: Clock, flags: seq<string>)
    requires RecordStep(true, s, clock, flags).events != []
    requires forall f | f in flags :: f != "" && ' ' !in f
    ensures flags != [] && Fields.FieldsOf(RecordStep(true, s, clock, flags).events[0].code, " ") == flags
  {
    hide Fires, Remainder, Fields.Merged, Fields.FieldsOf, Fields.Whole;
    forall f | f in flags
      ensures Fields.Whole(f, " ")
    {
      Fields.WholeOne(f, ' ');
    }
    Fields.SplitOfMerged(flags, " ");
  }

  /** The events since `report_enable` was last cleared: on request, or by a poll with an
      interval of less than a minute. */
  function Pending(jia: bool, s: State, commands: seq<Command>): seq<Event> {
    if commands == [] then []
    else
      var n := |commands| - 1;
      var before, c := Run(jia, s, commands[..n]).state, commands[n];
      var cleared := if c.Poll? then before.seconds < 60 else c.ReportCheck? && c.reset;
      (if cleared then [] else Pending(jia, s, commands[..n])) + Apply(jia, before, c).events
  }

  /** They are the last events of the run. */
  lemma {:induction false} PendingIsLast(jia: bool, s: State, commands: seq<Command>)
    ensures var all, late := Run(jia, s, commands).events, Pending(jia, s, commands);
            |late| <= |all| && late == all[|all| - |late|..]
    decreases |commands|
  {
    hide Apply;
    if commands != [] {
      PendingIsLast(jia, s, commands[..|commands| - 1]);
    }
  }

  /** A record is offered for reporting exactly when one has been released since the flag
      was last cleared. */
  lemma {:induction false} OfferedIsReleased(jia: bool, s: State, commands: seq<Command>)
    requires !s.reportEnable
    ensures Run(jia, s, commands).state.reportEnable <==> Released in Pending(jia, s, commands)
    decreases |commands|
  {
    hide Fires, Remainder, Fields.Merged;
    if commands != [] {
      var n := |commands| - 1;
      OfferedIsReleased(jia, s, commands[..n]);
      OfferedAfter(jia, Run(jia, s, commands[..n]).state, commands[n]);
      hide Apply;
    }
  }

  lemma OfferedAfter(jia: bool, s: State, c: Command)
    ensures var t := Apply(jia, s, c);
            var cleared := if c.Poll? then s.seconds < 60 else c.ReportCheck? && c.reset;
            t.state.reportEnable <==> Released in t.events || (!cleared && s.reportEnable)
  {
    hide Fires, Remainder, Fields.Merged;
  }
}

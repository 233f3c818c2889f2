/** The uplink sender SendMode (sendmode.cpp): fragmentation, the stop-and-wait exchange
    of the modes M2 and M4, and the sending of all fragments in a row of mode M3. Frames are
    kept as the arguments given to the frame encoder; replies reach the sender as atomic
    events, at most one a tick. */
module Uplink {
  import opened Outcomes
  import opened Encoding

  datatype Mode = M1 | M2 | M3 | M4

  datatype Reply = Reply(cmd: int, etx: int)

  datatype Frame = Frame(cmd: int, remote: int, payload: seq<byte>, stx: int, etx: int)

  /** A frame of mode M3. */
  datatype NumberedFrame = NumberedFrame(frame: Frame, total: int, sn: nat)

  /** One transmission, and what was heard before the next one. */
  datatype Try = Try(sn: nat, frame: Frame, heard: Option<Reply>)

  const PDSIZE: int := 1024
  const STX_STX: int := 0x02
  const STX_SYN: int := 0x16
  const ETX_ETX: int := 0x03
  const ETX_ETB: int := 0x17
  const ETX_EOT: int := 0x04
  const ETX_ESC: int := 0x1B

  // ---------- fragments ----------

  function PacketCount(len: nat, psize: nat): nat
    requires psize > 0
  {
    len / psize + (if len % psize == 0 then 0 else 1)
  }

  lemma CountOne(len: nat, psize: nat)
    requires len > 0 && psize > 0
    ensures PacketCount(len, psize) == 1 <==> len <= psize
  {
    var q, r := len / psize, len % psize;
    assert len == q * psize + r;
    if q == 0 {
    } else if q > 1 {
      assert q * psize >= 2 * psize;
    }
  }

  lemma CountPositive(len: nat, psize: nat)
    requires len > 0 && psize > 0
    ensures PacketCount(len, psize) > 0
  {
  }

  /** A message and how it is to be sent: what `init` leaves in the fields. */
  datatype Job = Job(cmd: int, remote: int, data: seq<byte>, psize: nat, count: nat) {

    ghost predicate Ready() {
      psize > 0 && data != [] && count == PacketCount(|data|, psize)
    }

    /** `get_sn_size` */
    function Size(sn: nat): int {
      if sn == 0 then 0 else if sn == count then |data| - (sn - 1) * psize else psize
    }

    lemma InBounds(sn: nat)
      requires Ready() && 1 <= sn <= count
      ensures 0 <= (sn - 1) * psize <= (sn - 1) * psize + Size(sn) <= |data|
      ensures 0 < Size(sn) <= psize
      ensures sn == count ==> (sn - 1) * psize + Size(sn) == |data|
      ensures sn < count ==> (sn - 1) * psize + Size(sn) == sn * psize
    {
      var q, r := |data| / psize, |data| % psize;
      assert |data| == q * psize + r;
      if sn < count {
        AtMost(sn, q, psize);
        assert (sn - 1) * psize == sn * psize - psize;
      } else {
        assert r == 0 ==> (sn - 1) * psize == q * psize - psize;
      }
      AtMost(0, sn - 1, psize);
    }

    lemma AtMost(a: nat, b: nat, c: nat)
      requires a <= b
      ensures a * c <= b * c
    {
    }

    function Payload(sn: nat): seq<byte>
      requires Ready() && 1 <= sn <= count
    {
      InBounds(sn);
      data[(sn - 1) * psize..(sn - 1) * psize + Size(sn)]
    }

    function Framed(sn: nat): Frame
      requires Ready() && 1 <= sn <= count
    {
      Frame(cmd, remote, Payload(sn), if count == 1 then STX_STX else STX_SYN, if sn == count then ETX_ETX else ETX_ETB)
    }

    /** The first `n` fragments as mode M3 sends them, with total and number. */
    function Numbered(n: nat): seq<NumberedFrame>
      requires Ready() && n <= count
    {
      if n == 0 then [] else Numbered(n - 1) + [NumberedFrame(Framed(n), count, n)]
    }

    /** The payloads of the first `n` fragments. */
    function Joined(n: nat): seq<byte>
      requires Ready() && n <= count
    {
      if n == 0 then [] else Joined(n - 1) + Payload(n)
    }

    lemma {:induction false} JoinedIsPrefix(n: nat)
      requires Ready() && n <= count
      ensures n < count ==> n * psize <= |data| && Joined(n) == data[..n * psize]
      ensures n == count ==> Joined(n) == data
      decreases n
    {
      if n > 0 {
        JoinedIsPrefix(n - 1);
        InBounds(n);
        assert data[..(n - 1) * psize] + Payload(n) == data[..(n - 1) * psize + Size(n)];
      }
    }

    /** The fragments make up the message; none is empty or too long; exactly the last
        one says that nothing follows. */
    lemma FragmentsCover(sn: nat)
      requires Ready() && 1 <= sn <= count
      ensures Joined(count) == data
      ensures 0 < |Payload(sn)| <= psize
      ensures Framed(sn).etx == ETX_ETX <==> sn == count
      ensures Framed(sn).etx == ETX_ETB <==> sn < count
    {
      JoinedIsPrefix(count);
      InBounds(sn);
    }

    /** The control characters and addresses of a frame, by the length of the message: a
        single packet starts with STX (0x02) and ends with ETX (0x03), those of a longer
        message start with SYN (0x16) and all but the last end with ETB (0x17). */
    lemma FrameMarks(sn: nat)
      requires Ready() && 1 <= sn <= count
      ensures var f := Framed(sn);
              && f.stx == (if |data| <= psize then 0x02 else 0x16)
              && f.etx == (if sn * psize >= |data| then 0x03 else 0x17)
              && f.cmd == cmd && f.remote == remote
              && f.payload == data[(sn - 1) * psize..if sn * psize >= |data| then |data| else sn * psize]
    {
      LastIff(sn);
      CountOne(|data|, psize);
      hide PacketCount, Job.Size;
      InBounds(sn);
    }

    lemma LastIff(sn: nat)
      requires Ready() && 1 <= sn <= count
      ensures sn == count <==> sn * psize >= |data|
      ensures (sn - 1) * psize + Size(sn) == if sn * psize >= |data| then |data| else sn * psize
    {
      hide PacketCount, Job.Size;
      InBounds(sn);
      Successor(sn - 1, psize);
      if sn < count {
        InBounds(sn + 1);
      }
    }

    lemma Successor(a: int, b: int)
      ensures (a + 1) * b == a * b + b
    {
    }
  }

  // ---------- the exchange of M2 and M4 ----------

  /** What the link delivers: the reply seen at each tick, if any. */
  type Line = nat -> Option<Reply>

  /** Rounds of the 10 ms loop, whose condition is `t <= ms`. */
  function Ticks(ms: int): nat {
    if ms < 0 then 0 else ms / 10 + 1
  }

  /** Rounds of a 10 ms loop whose condition is `t < ms`. */
  function WaitTicks(ms: int): nat {
    if ms <= 0 then 0 else (ms + 9) / 10
  }

  datatype Listened = Listened(heard: Option<Reply>, clock: nat)

  function Listen(line: Line, clock: nat, ticks: nat): Listened
    decreases ticks
  {
    if ticks == 0 then Listened(None, clock)
    else if line(clock).Some? then Listened(line(clock), clock + 1)
    else Listen(line, clock + 1, ticks - 1)
  }

  /** A reply to the command that was sent. */
  predicate Accepts(cmd: int, heard: Option<Reply>) {
    heard.Some? && heard.value.cmd == cmd
  }

  /** A reply that ends the exchange at once. */
  predicate Ends(heard: Option<Reply>) {
    heard.Some? && (heard.value.etx == ETX_EOT || heard.value.etx == ETX_ESC)
  }

  datatype Exchanged = Exchanged(tries: seq<Try>, result: int, clock: nat)

  function After(tries: seq<Try>, e: Exchanged): Exchanged {
    Exchanged(tries + e.tries, e.result, e.clock)
  }

  /** The exchange from fragment `sn` on, of which `left` tries remain. */
  function Exchange(job: Job, line: Line, ticks: nat, sn: nat, left: nat, clock: nat): Exchanged
    requires job.Ready() && 1 <= sn <= job.count && left > 0
    decreases job.count - sn, left
  {
    var l := Listen(line, clock, ticks);
    var t := [Try(sn, job.Framed(sn), l.heard)];
    if Accepts(job.cmd, l.heard) then
      if Ends(l.heard) || sn == job.count then Exchanged(t, 0, l.clock)
      else After(t, Exchange(job, line, ticks, sn + 1, 3, l.clock))
    else if left == 1 then Exchanged(t, -1, l.clock)
    else After(t, Exchange(job, line, ticks, sn, left - 1, l.clock))
  }

  /** The exchange after `c` fragments have been acknowledged. */
  function Remaining(job: Job, line: Line, ticks: nat, c: nat, clock: nat): Exchanged
    requires job.Ready() && c <= job.count
  {
    if c == job.count then Exchanged([], 0, clock) else Exchange(job, line, ticks, c + 1, 3, clock)
  }

  datatype Verdict = Acknowledged | Ended | Failed

  class SendMode {
    const line: Line
    /** Whether the device has sent everything, at each tick. */
    const sendEnd: nat -> bool
    var mode: Mode
    var cmd: int
    var remote: int
    var data: seq<byte>
    var len: int
    var psize: int
    var packetCount: int

    var getPacket: bool
    var packet: Reply
    var etx: int

    /** Ticks that have gone by, and what went out on the device. */
    var clock: nat
    var sent: seq<Try>
    var sentInRow: seq<NumberedFrame>

    constructor (line: Line, sendEnd: nat -> bool)
      ensures this.line == line && this.sendEnd == sendEnd && sent == [] && sentInRow == [] && clock == 0
    {
      this.line, this.sendEnd, sentInRow := line, sendEnd, [];
      mode, cmd, remote, data, len, psize, packetCount := M1, 0, 0, [], 0, 0, 0;
      getPacket, packet, etx, clock, sent := false, Reply(0, 0), 0, 0, [];
    }

    function Current(): Job
      requires 0 <= len <= |data| && psize > 0 && packetCount >= 0
      reads this
    {
      Job(cmd, remote, data[..len], psize, packetCount)
    }

    ghost predicate Ready()
      reads this
    {
      0 < len <= |data| && psize > 0 && packetCount >= 0 && Current().Ready()
    }

    /** A message that does not fit a packet is cut off; for an empty one the packet
        count keeps its old value. */
    method Init(mode: Mode, remote: int, cmd: int, data: seq<byte>, len: int, size: int)
      requires len <= |data| && size > 0
      modifies this
      ensures this.len == if len > 1008 then 1008 else len
      ensures len > 0 ==> Ready() && Current() == Job(cmd, remote, data[..this.len], size, PacketCount(this.len, size))
      ensures this.mode == mode && sent == old(sent) && sentInRow == old(sentInRow) && clock == old(clock)
    {
      this.mode, this.data, psize, this.cmd, this.remote := mode, data, size, cmd, remote;
      var n := len;
      if n + 16 > PDSIZE {
        n := PDSIZE - 16;
      }
      this.len := n;
      if n <= 0 {
        return;
      }
      packetCount := n / size + if n % size == 0 then 0 else 1;
      assert packetCount == PacketCount(n, size);
      CountPositive(n, size);
      hide PacketCount;
      packetCount := if packetCount == 0 then 1 else packetCount;
    }

    method GetSnSize(sn: nat) returns (n: int)
      requires Ready()
      ensures n == Current().Size(sn)
      ensures 1 <= sn <= packetCount ==> 0 < n <= psize && 0 <= (sn - 1) * psize <= len - n
      ensures sn == packetCount ==> (sn - 1) * psize + n == len
    {
      if 1 <= sn <= packetCount {
        Current().InBounds(sn);
      }
      hide PacketCount;
      if sn == 0 {
        return 0;
      }
      if sn == packetCount {
        return len - (sn - 1) * psize;
      }
      return psize;
    }

    /** The loop that polls `get_packet` every 10 ms. */
    method Poll(ms: int) returns (heard: Option<Reply>)
      modifies this`getPacket, this`packet, this`etx, this`clock
      ensures Listened(heard, clock) == Listen(line, old(clock), Ticks(ms))
      ensures getPacket == heard.Some?
      ensures heard.Some? ==> packet == heard.value && etx == heard.value.etx
    {
      getPacket, heard := false, None;
      var t := 0;
      while t <= ms
        invariant t >= 0 && t % 10 == 0 && !getPacket && heard == None
        invariant Listen(line, clock, Ticks(ms - t)) == Listen(line, old(clock), Ticks(ms))
        decreases ms - t
      {
        var seen := line(clock);
        clock := clock + 1;
        t := t + 10;
        if seen.Some? {
          getPacket, packet, etx, heard := true, seen.value, seen.value.etx, seen;
          break;
        }
      }
    }

    /** The retry loop around fragment `c + 1`: at most three transmissions. */
    method SendFragment(c: nat, ms: int) returns (v: Verdict, ghost done: seq<Try>)
      requires Ready() && c < packetCount
      modifies this`getPacket, this`packet, this`etx, this`clock, this`sent
      ensures sent == old(sent) + done
      ensures Exchange(Current(), line, Ticks(ms), c + 1, 3, old(clock)) ==
              match v
              case Failed => Exchanged(done, -1, clock)
              case Ended => Exchanged(done, 0, clock)
              case Acknowledged => After(done, Remaining(Current(), line, Ticks(ms), c + 1, clock))
    {
      hide Listen, Exchange, Remaining;
      ghost var job := Current();
      ghost var e := Exchange(job, line, Ticks(ms), c + 1, 3, clock);
      done := [];
      var frame := EncodeFragment(c);
      var retry := 3;
      assert After(done, e) == e;
      while true
        invariant 0 < retry <= 3 && sent == old(sent) + done
        invariant After(done, Exchange(job, line, Ticks(ms), c + 1, retry, clock)) == e
        decreases retry
      {
        retry := retry - 1;
        ExchangeStep(job, line, Ticks(ms), c + 1, retry + 1, clock, done);
        var heard := Poll(ms);
        var t := Try(c + 1, frame, heard);
        assert old(sent) + done + [t] == old(sent) + (done + [t]);
        sent, done := sent + [t], done + [t];
        if getPacket && packet.cmd == cmd {
          if etx == ETX_EOT || etx == ETX_ESC {
            return Ended, done;
          }
          return Acknowledged, done;
        } else {
          if retry <= 0 {
            return Failed, done;
          }
        }
      }
    }

    /** The call of the frame encoder for fragment `c + 1`. */
    method EncodeFragment(c: nat) returns (frame: Frame)
      requires Ready() && c < packetCount
      ensures frame == Current().Framed(c + 1)
    {
      var nowSize := GetSnSize(c + 1);
      Current().InBounds(c + 1);
      frame := Frame(cmd, remote, data[c * psize..c * psize + nowSize],
                     if packetCount == 1 then STX_STX else STX_SYN,
                     if c == packetCount - 1 then ETX_ETX else ETX_ETB);
      assert data[c * psize..c * psize + nowSize] == Current().Payload(c + 1);
    }

    /** `m3_send`: one fragment, then wait for the device to have sent it. */
    method M3Send(sn: nat, ms: int) returns (r: int)
      requires Ready() && 1 <= sn <= packetCount
      modifies this`getPacket, this`clock, this`sentInRow
      ensures sentInRow == old(sentInRow) + [NumberedFrame(Current().Framed(sn), packetCount, sn)]
      ensures r == 0 || r == -1
      ensures old(clock) <= clock <= old(clock) + WaitTicks(ms)
      ensures forall k :: old(clock) < k < clock ==> !sendEnd(k)
      ensures r == 0 <==> sendEnd(clock)
      ensures r == -1 ==> clock == old(clock) + WaitTicks(ms)
      ensures clock > old(clock) ==> 10 * (clock - old(clock)) < ms + 10
      ensures r == -1 ==> 10 * (clock - old(clock)) >= ms
    {
      getPacket := false;
      var frame := EncodeFragment(sn - 1);
      sentInRow := sentInRow + [NumberedFrame(frame, packetCount, sn)];
      var t := 0;
      while t < ms
        invariant old(clock) <= clock && t == 10 * (clock - old(clock)) && (t > 0 ==> t - 10 < ms)
        invariant forall k :: old(clock) < k <= clock ==> !sendEnd(k)
        invariant sentInRow == old(sentInRow) + [NumberedFrame(frame, packetCount, sn)]
        decreases ms - t
      {
        clock := clock + 1;
        t := t + 10;
        if sendEnd(clock) {
          break;
        }
      }
      if !sendEnd(clock) {
        return -1;
      }
      return 0;
    }

    /** The sending loop of `wait` in mode M3. */
    method SendInRow(ms: int) returns (ok: bool, ghost n: nat)
      requires Ready()
      modifies this`getPacket, this`clock, this`sentInRow
      ensures n <= packetCount && sentInRow == old(sentInRow) + Current().Numbered(n)
      ensures ok ==> n == packetCount
      ensures !ok ==> n > 0 && !sendEnd(clock)
    {
      hide PacketCount;
      ghost var job := Current();
      var c := 0;
      n := 0;
      while c < packetCount
        invariant 0 <= c <= packetCount && n == c
        invariant sentInRow == old(sentInRow) + job.Numbered(c)
      {
        ghost var before := job.Numbered(c);
        var r := M3Send(c + 1, ms);
        assert old(sentInRow) + before + [NumberedFrame(job.Framed(c + 1), packetCount, c + 1)]
            == old(sentInRow) + (before + [NumberedFrame(job.Framed(c + 1), packetCount, c + 1)]);
        n := n + 1;
        if r < 0 {
          return false, n;
        }
        c := c + 1;
      }
      return true, n;
    }

    /** `wait` in the modes M2 and M4. */
    method WaitAcknowledged(ms: int) returns (result: int, ghost done: seq<Try>)
      requires len > 0 ==> Ready()
      modifies this`getPacket, this`packet, this`etx, this`clock, this`sent
      ensures sent == old(sent) + done
      ensures if len <= 0 then result == 0 && done == []
              else Exchanged(done, result, clock) == Exchange(Current(), line, Ticks(ms), 1, 3, old(clock))
    {
      hide Exchange;
      done := [];
      if len <= 0 {
        return 0, done;
      }
      ghost var job := Current();
      ghost var e := Exchange(job, line, Ticks(ms), 1, 3, clock);
      CountPositive(|job.data|, psize);
      var c := 0;
      assert After(done, Remaining(job, line, Ticks(ms), c, clock)) == e;
      while c < packetCount
        invariant 0 <= c <= packetCount && sent == old(sent) + done
        invariant After(done, Remaining(job, line, Ticks(ms), c, clock)) == e
      {
        var v: Verdict;
        ghost var more: seq<Try>;
        ghost var before := done;
        v, more := SendFragment(c, ms);
        assert old(sent) + done + more == old(sent) + (done + more);
        done := done + more;
        c := c + 1;
        AfterAfter(before, more, Remaining(job, line, Ticks(ms), c, clock));
        if v == Ended {
          return 0, done;
        }
        if v == Failed {
          return -1, done;
        }
      }
      assert done + [] == done;
      return 0, done;
    }
  }

  /** What a sender in mode M3 has put out: the fragments are whole and in order. */
  lemma {:induction false} NumberedPayloads(job: Job, n: nat)
    requires job.Ready() && n <= job.count
    ensures |job.Numbered(n)| == n
    ensures forall i :: 0 <= i < n ==> job.Numbered(n)[i] == NumberedFrame(job.Framed(i + 1), job.count, i + 1)
  {
    hide PacketCount, Job.Framed;
    if n > 0 {
      NumberedPayloads(job, n - 1);
    }
  }

  lemma AfterAfter(a: seq<Try>, b: seq<Try>, e: Exchanged)
    ensures After(a, After(b, e)) == After(a + b, e)
  {
  }

  /** One transmission of the exchange. */
  lemma ExchangeStep(job: Job, line: Line, ticks: nat, sn: nat, left: nat, clock: nat, done: seq<Try>)
    requires job.Ready() && 1 <= sn <= job.count && left > 0
    ensures var l := Listen(line, clock, ticks);
            var now := done + [Try(sn, job.Framed(sn), l.heard)];
            After(done, Exchange(job, line, ticks, sn, left, clock)) ==
            if Accepts(job.cmd, l.heard) then
              if Ends(l.heard) then Exchanged(now, 0, l.clock)
              else After(now, Remaining(job, line, ticks, sn, l.clock))
            else if left == 1 then Exchanged(now, -1, l.clock)
            else After(now, Exchange(job, line, ticks, sn, left - 1, l.clock))
  {
  }
}

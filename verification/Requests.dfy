/** The RS-485 request machine dfsm (dfsm.cpp). Callbacks are only logged: one that
    calls `init` again starts a new request. */
module Requests {
  import opened Encoding

  const IDLE: int := 0
  const SEND: int := 1
  const WAIT: int := 2
  const TIMEOUT: int := 3
  const GET: int := 4

  /** Size of both buffers. */
  const BUFFER: int := 200

  datatype Call = PacketCall | TimeoutCall

  /** The fields of the machine, the buffers as far as they are filled, and what it has
      sent and called since `init`. */
  datatype Machine = Machine(
    step: int, retry: int, deadline: int, gotPacket: bool, wanted: int,
    message: seq<byte>, received: seq<byte>,
    sends: seq<seq<byte>>, calls: seq<Call>)

  const WAIT_MS: int := 2000

  function Taken(data: seq<byte>, room: nat): seq<byte> {
    if |data| > room then data[..room] else data
  }

  function Armed(m: Machine, message: seq<byte>, retries: int): Machine {
    m.(step := SEND, retry := retries, gotPacket := false,
       message := if message == [] then m.message else Taken(message, BUFFER),
       received := [], sends := [], calls := [])
  }

  function Processed(m: Machine, now: int): Machine {
    if m.step == IDLE then m
    else if m.step == SEND then m.(sends := m.sends + [m.message], deadline := WAIT_MS + now, step := WAIT)
    else if m.step == WAIT then
      if m.deadline < now then
        if m.retry > 0 then m.(retry := m.retry - 1, step := SEND) else m.(step := TIMEOUT)
      else if m.gotPacket then m.(calls := m.calls + [PacketCall], gotPacket := false, step := GET)
      else m
    else if m.step == TIMEOUT then m.(calls := m.calls + [TimeoutCall], step := IDLE)
    else m.(step := IDLE)
  }

  function Chunked(m: Machine, data: seq<byte>): Machine
    requires |m.received| <= BUFFER
  {
    var t := Taken(data, BUFFER - |m.received|);
    var all := m.received + t;
    m.(received := all, gotPacket := m.gotPacket || (t != [] && |all| >= m.wanted))
  }

  class Dfsm {
    const sb: array<byte>
    var slen: nat
    const rb: array<byte>
    var rlen: nat
    var gotPacket: bool
    var wanted: int
    var step: int
    var deadline: int
    var retry: int
    var sends: seq<seq<byte>>
    var calls: seq<Call>

    ghost predicate Valid()
      reads this
    {
      && sb != rb && sb.Length == BUFFER && rb.Length == BUFFER
      && slen <= BUFFER && rlen <= BUFFER
    }

    function State(): Machine
      requires Valid()
      reads this, sb, rb
    {
      Machine(step, retry, deadline, gotPacket, wanted, sb[..slen], rb[..rlen], sends, calls)
    }

    /** The step is not initialised by the original. */
    constructor (wanted: int, step: int)
      ensures Valid() && fresh(sb) && fresh(rb)
      ensures State() == Machine(step, 0, 0, false, wanted, [], [], [], [])
    {
      sb, rb := new byte[BUFFER](_ => 0), new byte[BUFFER](_ => 0);
      slen, rlen, gotPacket, deadline, retry := 0, 0, false, 0, 0;
      this.wanted, this.step := wanted, step;
      sends, calls := [], [];
    }

    method Init(b: seq<byte>, retries: int)
      requires Valid()
      modifies this, sb, rb
      ensures Valid() && State() == Armed(old(State()), b, retries)
    {
      if |b| > 0 {
        var l := if |b| > BUFFER then BUFFER else |b|;
        forall i | 0 <= i < l {
          sb[i] := b[i];
        }
        assert sb[..l] == b[..l];
        slen := l;
      }
      rlen := 0;
      forall i | 0 <= i < BUFFER {
        rb[i] := 0;
      }
      gotPacket, retry, step, sends, calls := false, retries, SEND, [], [];
    }

    method Process(now: int)
      requires Valid()
      modifies this
      ensures Valid() && State() == Processed(old(State()), now)
    {
      if step == IDLE {
      } else if step == SEND {
        sends := sends + [sb[..slen]];
        deadline := WAIT_MS + now;
        step := WAIT;
      } else if step == WAIT {
        if deadline < now {
          if retry > 0 {
            retry := retry - 1;
            step := SEND;
          } else {
            step := TIMEOUT;
          }
        } else if gotPacket {
          calls := calls + [PacketCall];
          gotPacket := false;
          step := GET;
        }
      } else if step == TIMEOUT {
        calls := calls + [TimeoutCall];
        step := IDLE;
      } else {
        step := IDLE;
      }
    }

    /** The `memcpy` behind the bytes received before. */
    method Copy(data: seq<byte>, len: nat)
      requires Valid() && len <= |data| && rlen + len <= BUFFER
      modifies rb
      ensures rb[..rlen + len] == old(rb[..rlen]) + data[..len]
    {
      forall i | 0 <= i < len {
        rb[rlen + i] := data[i];
      }
    }

    /** `down_packet_process` */
    method Receive(data: seq<byte>)
      requires Valid()
      modifies this, rb
      ensures Valid() && State() == Chunked(old(State()), data)
    {
      var len := |data|;
      if rlen + len > BUFFER {
        len := BUFFER - rlen;
      }
      if len != 0 {
        Copy(data, len);
        rlen := rlen + len;
        if rlen >= wanted {
          gotPacket := true;
        }
      }
    }
  }

  // ---------- every run ----------

  datatype Input = Tick(now: int) | Chunk(data: seq<byte>)

  function Run(m: Machine, inputs: seq<Input>): (r: Machine)
    requires |m.received| <= BUFFER
    ensures |r.received| <= BUFFER
  {
    if inputs == [] then m
    else
      var before := Run(m, inputs[..|inputs| - 1]);
      match inputs[|inputs| - 1]
      case Tick(now) => Processed(before, now)
      case Chunk(data) => Chunked(before, data)
  }

  function Heard(inputs: seq<Input>): seq<byte> {
    if inputs == [] then []
    else
      var last := inputs[|inputs| - 1];
      Heard(inputs[..|inputs| - 1]) + if last.Chunk? then last.data else []
  }

  function Max(a: int, b: int): int {
    if a >= b then a else b
  }

  /** What every step of a request with `retries` retries keeps. */
  ghost predicate Kept(m: Machine, retries: int) {
    && IDLE <= m.step <= GET
    && |m.sends| + m.retry + (if m.step == SEND then 1 else 0) == retries + 1
    && (m.retry >= 0 || m.retry == retries)
    && (forall i :: 0 <= i < |m.sends| ==> m.sends[i] == m.message)
    && (m.step != SEND ==> m.sends != [])
    && (m.step == SEND || m.step == WAIT || m.step == TIMEOUT ==> m.calls == [])
    && (m.step == TIMEOUT ==> m.retry <= 0)
    && (m.gotPacket || PacketCall in m.calls ==> m.received != [] && |m.received| >= m.wanted)
    && (m.calls == [] ==> (m.gotPacket <==> m.received != [] && |m.received| >= m.wanted))
    && (m.step == GET ==> m.calls == [PacketCall])
    && (m.step == IDLE ==> |m.calls| == 1 && (m.calls[0] == TimeoutCall ==> m.retry <= 0))
  }

  lemma ProcessedKeeps(m: Machine, now: int, retries: int)
    requires Kept(m, retries)
    ensures Kept(Processed(m, now), retries)
  {
  }

  lemma ChunkedKeeps(m: Machine, data: seq<byte>, retries: int)
    requires Kept(m, retries) && |m.received| <= BUFFER
    ensures Kept(Chunked(m, data), retries)
  {
  }

  lemma TakenMore(a: seq<byte>, b: seq<byte>)
    ensures Taken(a, BUFFER) + Taken(b, BUFFER - |Taken(a, BUFFER)|) == Taken(a + b, BUFFER)
  {
  }

  /** In every run after `init`, sends, retries left and a pending send add up to the
      retries asked for and one; the buffer holds the first 200 bytes received. */
  lemma {:induction false} RunKeeps(m: Machine, message: seq<byte>, retries: int, inputs: seq<Input>)
    ensures var r := Run(Armed(m, message, retries), inputs);
            && Kept(r, retries)
            && r.received == Taken(Heard(inputs), BUFFER)
            && r.message == (if message == [] then m.message else if |message| > 200 then message[..200] else message)
            && (|Heard(inputs)| > 200 ==> r.received == Heard(inputs)[..200])
    decreases |inputs|
  {
    TakenLong(Heard(inputs));
    hide Kept, Taken;
    if inputs == [] {
      ArmedKeeps(m, message, retries);
    } else {
      var n := |inputs| - 1;
      RunKeeps(m, message, retries, inputs[..n]);
      var before := Run(Armed(m, message, retries), inputs[..n]);
      match inputs[n]
      case Tick(now) =>
        ProcessedKeeps(before, now, retries);
        assert Heard(inputs) == Heard(inputs[..n]);
      case Chunk(data) =>
        ChunkedKeeps(before, data, retries);
        TakenMore(Heard(inputs[..n]), data);
    }
  }

  lemma TakenLong(d: seq<byte>)
    ensures Taken(d, BUFFER) == if |d| > 200 then d[..200] else d
  {
  }

  lemma ArmedKeeps(m: Machine, message: seq<byte>, retries: int)
    ensures Kept(Armed(m, message, retries), retries)
    ensures Taken([], BUFFER) == []
    ensures Armed(m, message, retries).message ==
            if message == [] then m.message else if |message| > 200 then message[..200] else message
  {
  }

  /** At most `max(retries, 0) + 1` transmissions, all of the same message; at most one
      callback, once; a timeout only after all transmissions have been made, a packet only
      with as many bytes as wanted. */
  lemma RunBounded(m: Machine, message: seq<byte>, retries: int, inputs: seq<Input>)
    ensures var r := Run(Armed(m, message, retries), inputs);
            && |r.sends| <= Max(retries, 0) + 1
            && (forall i :: 0 <= i < |r.sends| ==> r.sends[i] == r.message)
            && |r.calls| <= 1
            && (r.calls == [TimeoutCall] ==> |r.sends| == Max(retries, 0) + 1)
            && (r.calls == [PacketCall] ==> r.received != [] && |r.received| >= r.wanted)
  {
    hide Run;
    RunKeeps(m, message, retries, inputs);
  }

  /** The time of the latest transmission. */
  function SentAt(m: Machine, inputs: seq<Input>): int
    requires |m.received| <= BUFFER
  {
    if inputs == [] then 0
    else
      var n := |inputs| - 1;
      if inputs[n].Tick? && Run(m, inputs[..n]).step == SEND then inputs[n].now else SentAt(m, inputs[..n])
  }

  lemma {:induction false} WaitsTwoSeconds(m: Machine, message: seq<byte>, retries: int, inputs: seq<Input>)
    ensures var s := Armed(m, message, retries);
            && (Run(s, inputs).step == WAIT ==> Run(s, inputs).deadline == SentAt(s, inputs) + 2000)
            && Run(s, inputs).wanted == m.wanted
    decreases |inputs|
  {
    hide Taken;
    if inputs != [] {
      WaitsTwoSeconds(m, message, retries, inputs[..|inputs| - 1]);
    }
  }

  /** What a tick does at any point of a request. Waiting, up to two seconds after the
      latest transmission the packet is delivered if, and only if, as many bytes as wanted
      have come; only later the message is sent again, or the request given up. */
  lemma TickDecides(m: Machine, message: seq<byte>, retries: int, inputs: seq<Input>, now: int)
    ensures var s := Armed(m, message, retries);
            var r, due := Run(s, inputs), SentAt(s, inputs) + 2000;
            var next := Processed(r, now);
            var arrived := Heard(inputs) != [] && |r.received| >= m.wanted;
            && (r.step == SEND ==> next.sends == r.sends + [r.message] && next.step == WAIT && next.calls == [])
            && (r.step == WAIT && now <= due && arrived ==> next.calls == [PacketCall] && next.step == GET)
            && (r.step == WAIT && now <= due && !arrived ==> next == r)
            && (r.step == WAIT && due < now ==>
                  && next.calls == [] && next.retry == (if r.retry > 0 then r.retry - 1 else r.retry)
                  && next.step == if r.retry > 0 then SEND else TIMEOUT)
            && (r.step == TIMEOUT ==> next.calls == [TimeoutCall] && next.step == IDLE)
            && (r.step == GET || r.step == IDLE ==> next.calls == r.calls && next.step == IDLE)
            && (r.step != SEND ==> next.sends == r.sends)
  {
    WaitsTwoSeconds(m, message, retries, inputs);
    RunKeeps(m, message, retries, inputs);
    TakenEmpty(Heard(inputs));
    hide Run, Heard, SentAt, Taken;
  }

  lemma TakenEmpty(d: seq<byte>)
    ensures Taken(d, BUFFER) == [] <==> d == []
  {
  }
}

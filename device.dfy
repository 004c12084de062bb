/**
 The protocol engine as the imperative code it is: the UART as an object
 whose script answers the system calls, the global response buffer as an
 array, the global esp_state as a field, and the three entry points as
 methods proved against the specifications of Executor, Association and Http.
 */
module Device {
  import opened Wrappers
  import opened CText
  import opened Executor
  import opened Sequencing
  import Association
  import Http

  /** The serial line. `sessions` scripts what the line does during each
      coming executor call (see Executor); `rxQueue` is the receive queue,
      `wire` every byte written so far, `waits` every timeout handed to
      select(), and `commands` the executor calls made so far. */
  class Uart {
    var sessions: seq<Session>
    var rxQueue: seq<char>
    var wire: seq<char>
    var waits: seq<TimeVal>
    ghost var commands: seq<Command>

    constructor(script: seq<Session>)
      ensures sessions == script && rxQueue == [] && wire == [] && waits == [] && commands == []
    {
      sessions := script;
      rxQueue := [];
      wire := [];
      waits := [];
      commands := [];
    }
  }

  /** The buffer after a call that ended with outcome `o`, against the buffer
      before it: untouched if nothing was read, else the response text, its
      terminator, and every later byte as it was. */
  ghost predicate BufferHolds(o: Outcome, before: seq<char>, after: seq<char>)
  {
    |after| == |before| &&
    (o.stored ==> |o.text| < |after| && after[..|o.text|] == o.text && after[|o.text|] == '\0' &&
                  after[|o.text| + 1..] == before[|o.text| + 1..]) &&
    (!o.stored ==> after == before)
  }

  /** The loop state `st` of the specification is what the variables hold:
      the text is the first `total` bytes of the buffer, the receive queue
      and the select() timeouts are the line's. */
  ghost predicate Mirrors(st: Listening, total: nat, now: seq<char>, before: seq<char>,
                          rxQueue: seq<char>, waits: seq<TimeVal>, waits0: seq<TimeVal>)
  {
    total < |now| == |before| && st.text == now[..total] && st.pending == rxQueue && waits == waits0 + st.waits &&
    (st.stored ==> now[total] == '\0' && now[total + 1..] == before[total + 1..]) &&
    (!st.stored ==> now == before && total == 0)
  }

  /** esp_send_command_wait_response(uart_fd, command, buf, buf.Length,
      expected, timeoutMs): one call runs exactly as Exec describes for the
      next scripted session, and the buffer is left as BufferHolds says. */
  method SendCommandWaitResponse(uart: Uart, command: CString, buf: array<char>,
                                 expected: Option<CString>, timeoutMs: nat) returns (status: Status)
    requires 1 <= buf.Length
    modifies uart, buf
    ensures var c := Command(command, expected, timeoutMs);
            var o := Exec(c, NextSession(old(uart.sessions)), buf.Length);
            status == o.status &&
            uart.sessions == Drop(old(uart.sessions), 1) &&
            uart.commands == old(uart.commands) + [c] &&
            uart.wire == old(uart.wire) + o.sent &&
            uart.waits == old(uart.waits) + o.waits &&
            uart.rxQueue == o.leftover &&
            BufferHolds(o, old(buf[..]), buf[..])
  {
    var c := Command(command, expected, timeoutMs);
    var session := NextSession(uart.sessions);
    uart.sessions := Drop(uart.sessions, 1);
    uart.commands := uart.commands + [c];
    // tcflush(uart_fd, TCIOFLUSH)
    uart.rxQueue := [];
    if !session.writeOk {
      return Status.Error;
    }
    uart.wire := uart.wire + Frame(command);

    var total := 0;
    var k := 0;
    ghost var st := Fresh;
    ghost var w0 := uart.waits;
    ghost var b0 := buf[..];
    while true
      invariant k <= |session.ticks|
      invariant Mirrors(st, total, buf[..], b0, uart.rxQueue, uart.waits, w0)
      invariant Listen(c, session, buf.Length, k, st) == Listen(c, session, buf.Length, 0, Fresh)
      invariant uart.sessions == Drop(old(uart.sessions), 1) && uart.commands == old(uart.commands) + [c]
      invariant uart.wire == old(uart.wire) + Frame(command) && w0 == old(uart.waits) && b0 == old(buf[..])
      decreases |session.ticks| - k
    {
      // A script that has run out leaves the line silent until the deadline.
      if k == |session.ticks| || (session.ticks[k].checkAt - session.startAt) * 1000 >= timeoutMs {
        Finish(c, session, buf.Length, Stop(Timeout, st, k), b0, buf[..], total);
        return Timeout;
      }
      ListenPass(c, session, buf.Length, k, st);
      var done;
      done, status, total, st := Pass(uart, buf, c, session, k, total, st, b0, w0);
      k := k + 1;
      if done {
        Finish(c, session, buf.Length, Stop(status, st, k), b0, buf[..], total);
        return;
      }
    }
  }

  /** The end of a call, in the terms of the specification. */
  lemma Finish(c: Command, s: Session, cap: nat, stop: Stop, before: seq<char>, now: seq<char>, total: nat)
    requires s.writeOk && 1 <= cap && cap == |now|
    requires stop == Listen(c, s, cap, 0, Fresh)
    requires Mirrors(stop.last, total, now, before, stop.last.pending, [] + stop.last.waits, [])
    ensures var o := Exec(c, s, cap);
            o == Outcome(stop.status, Frame(c.text), stop.last.text, stop.last.stored,
                         stop.last.read, stop.last.pending, stop.used, stop.last.waits) &&
            BufferHolds(o, before, now)
  {
  }

  /** One pass of the polling loop after a deadline check that did not fire:
      the select() budget, then the read, the clamped append and the two
      strstr checks. It does what PollAt says pass k does. */
  method Pass(uart: Uart, buf: array<char>, c: Command, session: Session, k: nat, total: nat,
              ghost st: Listening, ghost b0: seq<char>, ghost w0: seq<TimeVal>)
    returns (done: bool, status: Status, total': nat, ghost st': Listening)
    requires k < |session.ticks| && !Expired(c, session, k)
    requires Mirrors(st, total, buf[..], b0, uart.rxQueue, uart.waits, w0)
    modifies uart`rxQueue, uart`waits, buf
    ensures Mirrors(st', total', buf[..], b0, uart.rxQueue, uart.waits, w0)
    ensures PollAt(c, session, buf.Length, k, st) == if done then Return(status, st') else Continue(st')
  {
    var elapsedMs := ((session.ticks[k].budgetAt - session.startAt) * 1000) % 0x1_0000_0000;
    var remainingMs := if elapsedMs < c.timeoutMs then c.timeoutMs - elapsedMs else 0;
    var tv := TimeVal(remainingMs / 1000, (remainingMs % 1000) * 1000);
    assert tv == Budget(c, session, k);
    uart.waits := uart.waits + [tv];
    ghost var waited := st.(waits := st.waits + [tv]);
    total' := total;
    match session.ticks[k].event
    case WaitFailed =>
      done, status, st' := true, Status.Error, waited;
    case Quiet =>
      done, status, st' := false, Ok, waited;
    case Readable(arrived) =>
      done, status, total', st' := ReadChunk(uart, buf, c, total, waited, arrived, b0, w0);
  }

  /** select() reported data: read up to 63 queued bytes, append what fits,
      and look for the marker, then for ERROR, in the terminated text. */
  method ReadChunk(uart: Uart, buf: array<char>, c: Command, total: nat,
                   ghost st: Listening, arrived: seq<char>, ghost b0: seq<char>, ghost w0: seq<TimeVal>)
    returns (done: bool, status: Status, total': nat, ghost st': Listening)
    requires Mirrors(st, total, buf[..], b0, uart.rxQueue, uart.waits, w0)
    modifies uart`rxQueue, buf
    ensures st' == Receive(st, arrived, buf.Length)
    ensures Mirrors(st', total', buf[..], b0, uart.rxQueue, uart.waits, w0)
    ensures done <==> ReadCount(st, arrived) > 0 && (Hit(c.marker, st'.text) || Contains(CStr(st'.text), ErrorToken))
    ensures done ==> status == if Hit(c.marker, st'.text) then Ok else Status.Error
  {
    var queue := uart.rxQueue + arrived;
    var bytesRead := Min(ReadSize, |queue|);
    var temp := queue[..bytesRead];
    uart.rxQueue := queue[bytesRead..];
    st' := Receive(st, arrived, buf.Length);
    done, status, total' := false, Ok, total;
    if bytesRead > 0 {
      ghost var before := buf[..];
      total' := Append(buf, total, temp);
      assert buf[..total'] == st'.text;
      TailKept(before, b0, buf[..], total, total');
      TerminatedText(buf[..], total');
      if c.marker.Some? && Contains(CStr(buf[..]), c.marker.value) {
        done, status := true, Ok;
      } else if Contains(CStr(buf[..]), ErrorToken) {
        done, status := true, Status.Error;
      }
    }
  }

  /** Bytes past the new terminator are as they were before the call. */
  lemma TailKept(before: seq<char>, b0: seq<char>, now: seq<char>, total: nat, total': nat)
    requires total <= total' < |now| == |before| == |b0|
    requires before[total + 1..] == b0[total + 1..]
    requires now[total' + 1..] == before[total' + 1..]
    ensures now[total' + 1..] == b0[total' + 1..]
  {
    assert before[total' + 1..] == before[total + 1..][total' - total..];
    assert b0[total' + 1..] == b0[total + 1..][total' - total..];
  }

  /** The clamped memcpy and the re-terminated buffer: the chunk is cut so
      that the terminator still fits. */
  method Append(buf: array<char>, total: nat, chunk: seq<char>) returns (total': nat)
    requires total < buf.Length
    modifies buf
    ensures total' == if total + |chunk| >= buf.Length then buf.Length - 1 else total + |chunk|
    ensures buf[..total'] == old(buf[..total]) + chunk[..total' - total]
    ensures buf[total'] == '\0' && buf[total' + 1..] == old(buf[total' + 1..])
  {
    var bytesRead := |chunk|;
    if total + bytesRead >= buf.Length {
      bytesRead := buf.Length - total - 1;
    }
    forall i | 0 <= i < bytesRead {
      buf[total + i] := chunk[i];
    }
    total' := total + bytesRead;
    buf[total'] := '\0';
  }

  lemma AppendAssoc<T>(a: seq<T>, b: seq<T>, c: seq<T>)
    ensures a + b + c == a + (b + c)
  {
  }

  /** Pass k of the loop, unfolded once: a pass that goes on leaves the rest
      of the run to pass k + 1, and one that returns ends the run. */
  lemma ListenPass(c: Command, s: Session, cap: nat, k: nat, st: Listening)
    requires k < |s.ticks| && 1 <= cap && |st.text| <= cap - 1 && !Expired(c, s, k)
    ensures match PollAt(c, s, cap, k, st)
            case Continue(next) => Listen(c, s, cap, k, st) == Listen(c, s, cap, k + 1, next)
            case Return(status, last) => Listen(c, s, cap, k, st) == Stop(status, last, k + 1)
  {
  }

  /** What strstr sees in a buffer whose text is terminated at `total`. */
  lemma TerminatedText(b: seq<char>, total: nat)
    requires total < |b| && b[total] == '\0'
    ensures CStr(b) == CStr(b[..total])
  {
    assert b == b[..total] + ['\0'] + b[total + 1..];
    CStrStopsAtNul(b[..total], b[total + 1..]);
  }

  /** The whole effect of one executor call with the 2048-byte buffer, given
      the scripted sessions still to come. */
  type Run = (Command, seq<Session>) -> Outcome

  /** `reply` is the executor's status function Reply and `run` its whole
      outcome. The state machines are stated for such a `reply`; the trigger
      keeps the executor's definition out of their proofs until an outcome
      is actually needed. */
  ghost predicate Executes(reply: Oracle, run: Run)
  {
    forall c: Command, sessions: seq<Session> {:trigger Reply(c, sessions)} ::
      reply(c, sessions) == Reply(c, sessions) &&
      run(c, sessions) == Exec(c, NextSession(sessions), ResponseBufferSize)
  }

  /** An executor call as the state machines see it: the status `reply`
      gives, the one scripted session it uses up, the bytes it writes, the
      timeouts it hands to select(), the bytes it leaves queued and what it
      leaves in the buffer. */
  method Ask(uart: Uart, c: Command, buf: array<char>, ghost reply: Oracle, ghost run: Run)
    returns (status: Status)
    requires buf.Length == ResponseBufferSize && Executes(reply, run)
    modifies uart, buf
    ensures status == reply(c, old(uart.sessions)) == run(c, old(uart.sessions)).status
    ensures status == Ok ==> run(c, old(uart.sessions)).stored
    ensures uart.sessions == Drop(old(uart.sessions), 1)
    ensures uart.commands == old(uart.commands) + [c]
    ensures uart.wire == old(uart.wire) + run(c, old(uart.sessions)).sent
    ensures uart.waits == old(uart.waits) + run(c, old(uart.sessions)).waits
    ensures uart.rxQueue == run(c, old(uart.sessions)).leftover
    ensures BufferHolds(run(c, old(uart.sessions)), old(buf[..]), buf[..])
  {
    ghost var sessions := uart.sessions;
    status := SendCommandWaitResponse(uart, c.text, buf, c.marker, c.timeoutMs);
    assert status == Reply(c, sessions);
    ExecDecision(c, NextSession(sessions), ResponseBufferSize);
  }

  /** The driver's global state: esp_state, which persists from one call to
      the next, and the global response buffer every call writes into. */
  class Esp {
    var state: Association.State
    const responseBuffer: array<char>

    ghost predicate Valid()
      reads this
    {
      responseBuffer.Length == ResponseBufferSize
    }

    /** Program start: esp_state is ESP_STATE_RESET and the static buffer is
        all zero bytes. */
    constructor()
      ensures Valid() && state == Association.Reset && fresh(responseBuffer)
      ensures forall i :: 0 <= i < responseBuffer.Length ==> responseBuffer[i] == '\0'
    {
      state := Association.Reset;
      responseBuffer := new char[ResponseBufferSize]((_) => '\0');
    }

    /** esp_init_and_connect: the run Association.Associate describes from
        the state left by earlier calls, with the executor's replies. */
    method InitAndConnect(uart: Uart, ssid: CString, password: CString, ghost reply: Oracle, ghost run: Run)
      returns (connected: bool, ghost passes: nat)
      requires Valid() && Executes(reply, run)
      modifies this, uart, responseBuffer
      ensures var r := Association.Associate(old(state), ssid, password, reply, old(uart.sessions));
              state == r.final && (connected <==> state == Association.Connected) &&
              uart.commands == old(uart.commands) + r.calls &&
              uart.sessions == Drop(old(uart.sessions), |r.calls|)
      ensures passes == Association.Passes(old(state), ssid, password, reply, old(uart.sessions)) && passes <= 3
    {
      Association.PassesBound(state, ssid, password, reply, uart.sessions);
      passes := 0;
      ghost var whole := Association.Associate(state, ssid, password, reply, uart.sessions);
      ghost var total := Association.Passes(state, ssid, password, reply, uart.sessions);
      ghost var done: seq<Command> := [];
      while state != Association.Connected && state != Association.State.Error
        invariant uart.commands == old(uart.commands) + done
        invariant uart.sessions == Drop(old(uart.sessions), |done|)
        invariant done + Association.Associate(state, ssid, password, reply, uart.sessions).calls == whole.calls
        invariant Association.Associate(state, ssid, password, reply, uart.sessions).final == whole.final
        invariant passes + Association.Passes(state, ssid, password, reply, uart.sessions) == total
        decreases Association.Rank(state)
      {
        done := Advance(uart, ssid, password, reply, run, whole, old(uart.commands), old(uart.sessions), done,
                        total, passes);
        passes := passes + 1;
      }
      connected := state == Association.Connected;
    }

    /** The body of the association loop with its bookkeeping: after `done`
        of the run `whole`, one pass of the switch adds its calls to `done`,
        leaves the rest of the run to the new state, and counts one pass. */
    method Advance(uart: Uart, ssid: CString, password: CString, ghost reply: Oracle, ghost run: Run,
                   ghost whole: Association.Run, ghost commands0: seq<Command>, ghost sessions0: seq<Session>,
                   ghost done: seq<Command>, ghost total: nat, ghost passes: nat)
      returns (ghost done': seq<Command>)
      requires Valid() && Executes(reply, run) && !Association.Terminal(state)
      requires uart.commands == commands0 + done && uart.sessions == Drop(sessions0, |done|)
      requires done + Association.Associate(state, ssid, password, reply, uart.sessions).calls == whole.calls
      requires Association.Associate(state, ssid, password, reply, uart.sessions).final == whole.final
      requires passes + Association.Passes(state, ssid, password, reply, uart.sessions) == total
      modifies this, uart, responseBuffer
      ensures Valid() && Association.Rank(state) < Association.Rank(old(state))
      ensures uart.commands == commands0 + done' && uart.sessions == Drop(sessions0, |done'|)
      ensures done' + Association.Associate(state, ssid, password, reply, uart.sessions).calls == whole.calls
      ensures Association.Associate(state, ssid, password, reply, uart.sessions).final == whole.final
      ensures passes + 1 + Association.Passes(state, ssid, password, reply, uart.sessions) == total
    {
      ghost var from, ss := state, uart.sessions;
      ghost var pass := SwitchPass(uart, ssid, password, reply, run);
      Association.AssociateResumes(whole, from, ss, done, ssid, password, reply, state, pass);
      DropDrop(sessions0, |done|, |pass|);
      AppendAssoc(commands0, done, pass);
      done' := done + pass;
    }

    /** One pass of the switch in the association loop. */
    method SwitchPass(uart: Uart, ssid: CString, password: CString, ghost reply: Oracle, ghost run: Run) returns (ghost pass: seq<Command>)
      requires Valid() && Executes(reply, run) && !Association.Terminal(state)
      modifies this, uart, responseBuffer
      ensures Association.Step(old(state), ssid, password, reply, old(uart.sessions)) == Association.Run(state, pass)
      ensures uart.commands == old(uart.commands) + pass
      ensures uart.sessions == Drop(old(uart.sessions), |pass|)
    {
      var status;
      if state == Association.Reset {
        status := Ask(uart, Association.ResetCommand, responseBuffer, reply, run);
        pass := [Association.ResetCommand];
        if status == Ok {
          // the one-second settle delay is not modelled
          state := Association.Init;
        } else {
          state := Association.State.Error;
        }
      } else if state == Association.Init {
        ghost var ss := uart.sessions;
        status := Ask(uart, Association.ProbeCommand, responseBuffer, reply, run);
        pass := [Association.ProbeCommand];
        if status == Ok {
          status := Ask(uart, Association.ModeCommand, responseBuffer, reply, run);
          pass := pass + [Association.ModeCommand];
          DropDrop(ss, 1, 1);
          if status == Ok {
            state := Association.ConnectAp;
          } else {
            state := Association.State.Error;
          }
        } else {
          state := Association.State.Error;
        }
      } else if state == Association.ConnectAp {
        ghost var ss := uart.sessions;
        status := Ask(uart, Association.JoinCommand(ssid, password), responseBuffer, reply, run);
        pass := [Association.JoinCommand(ssid, password)];
        if status == Ok {
          status := Ask(uart, Association.WaitIpCommand, responseBuffer, reply, run);
          pass := pass + [Association.WaitIpCommand];
          DropDrop(ss, 1, 1);
          if status == Ok {
            state := Association.Connected;
          } else {
            state := Association.State.Error;
          }
        } else {
          state := Association.State.Error;
        }
      } else {
        pass := [];
        state := Association.State.Error;
      }
    }

    /** esp_http_get: the exchange Http.HttpGet describes, with the
        executor's replies; esp_state is left as it was. */
    method HttpGet(uart: Uart, host: CString, port: int, path: CString, ghost reply: Oracle, ghost run: Run) returns (ok: bool)
      requires Valid() && Executes(reply, run)
      modifies uart, responseBuffer
      ensures var x := Http.HttpGet(host, port, path, reply, old(uart.sessions));
              ok == x.ok && uart.commands == old(uart.commands) + x.calls &&
              uart.sessions == Drop(old(uart.sessions), |x.calls|)
      ensures ok ==> var o := run(Http.CloseWaitCommand, Drop(old(uart.sessions), 3));
                     o.status == Ok && o.stored && |o.text| < responseBuffer.Length &&
                     responseBuffer[..|o.text|] == o.text && responseBuffer[|o.text|] == '\0'
      ensures state == old(state)
    {
      ghost var ss, cs := uart.sessions, uart.commands;
      var start := Http.StartCommand(host, port);
      var status := Ask(uart, start, responseBuffer, reply, run);
      if status != Ok {
        return false;
      }
      var request := Http.Request(host, path);
      ghost var rest := Http.Deliver(request, reply, Drop(ss, 1));
      ok := Deliver(uart, request, reply, run);
      DropDrop(ss, 1, |rest.calls|);
      DropDrop(ss, 1, 2);
      AppendAssoc(cs, [start], rest.calls);
    }

    /** The rest of esp_http_get once the connection is open: the exchange
        Http.Deliver describes. On success the buffer holds the text of the
        close wait. */
    method Deliver(uart: Uart, request: CString, ghost reply: Oracle, ghost run: Run) returns (ok: bool)
      requires Valid() && Executes(reply, run) && |request| < Http.FormatBufferSize
      modifies uart, responseBuffer
      ensures var x := Http.Deliver(request, reply, old(uart.sessions));
              ok == x.ok && uart.commands == old(uart.commands) + x.calls &&
              uart.sessions == Drop(old(uart.sessions), |x.calls|)
      ensures ok ==> var o := run(Http.CloseWaitCommand, Drop(old(uart.sessions), 2));
                     o.status == Ok && o.stored && |o.text| < responseBuffer.Length &&
                     responseBuffer[..|o.text|] == o.text && responseBuffer[|o.text|] == '\0'
    {
      ghost var ss, cs := uart.sessions, uart.commands;
      var announce := Http.SendLengthCommand(request);
      var payload := Http.PayloadCommand(request);
      var status := Ask(uart, announce, responseBuffer, reply, run);
      if status != Ok {
        return false;
      }
      status := Ask(uart, payload, responseBuffer, reply, run);
      DropDrop(ss, 1, 1);
      AppendAssoc(cs, [announce], [payload]);
      if status != Ok {
        return false;
      }
      status := Ask(uart, Http.CloseWaitCommand, responseBuffer, reply, run);
      DropDrop(ss, 2, 1);
      AppendAssoc(cs, [announce, payload], [Http.CloseWaitCommand]);
      return status == Ok;
    }
  }
}

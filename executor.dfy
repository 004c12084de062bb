/**
 The command executor, esp_send_command_wait_response, as a specification:
 one call sends a command, then polls a scripted transport until the
 expected marker, the literal ERROR, a failed wait or the deadline ends it.

 The transport and the wall clock are a script. A Session says whether the
 write succeeds, what time(NULL) read when the wait started, and what each
 later pass of the polling loop sees: the two clock readings it takes (the
 deadline check and the budget computation each call time(NULL)) and what
 select() reported. Bytes that arrive queue up in the line's receive queue
 and each read() takes at most 63 of them. tcflush() at the start of a call
 discards whatever is queued, so every call starts with an empty queue. When
 the script is used up the line stays silent until the deadline passes.
 */
module Executor {
  import opened Wrappers
  import opened CText

  /** ESP_Status */
  datatype Status = Ok | Timeout | Error | Busy

  /** One call of the executor: the command text, the marker that means
      success (NULL allowed) and the timeout in milliseconds. */
  datatype Command = Command(text: CString, marker: Option<CString>, timeoutMs: nat)

  /** What select() reports on one pass of the polling loop. `arrived` is what
      reached the receive queue before the read. */
  datatype Event = Readable(arrived: seq<char>) | Quiet | WaitFailed

  /** One pass of the polling loop: time(NULL) at the deadline check, time(NULL)
      when the remaining budget is computed, and select()'s verdict. */
  datatype Tick = Tick(checkAt: int, budgetAt: int, event: Event)

  datatype Session = Session(writeOk: bool, startAt: int, ticks: seq<Tick>)

  /** struct timeval as handed to select() */
  datatype TimeVal = TimeVal(sec: nat, usec: nat)

  /** The state the polling loop carries from one pass to the next: the
      transport's receive queue, the accumulated response text, whether any
      bytes were ever appended (so the buffer was re-terminated), every byte
      read so far (kept or clamped away), and the select() budgets used. */
  datatype Listening = Listening(pending: seq<char>, text: seq<char>, stored: bool,
                                 read: seq<char>, waits: seq<TimeVal>)

  datatype Poll = Continue(next: Listening) | Return(status: Status, last: Listening)

  datatype Stop = Stop(status: Status, last: Listening, used: nat)

  /** Everything one executor call does: its status, the bytes written to the
      line, the final response text, whether the buffer was written at all,
      the bytes read, the bytes left queued, the passes of the loop that ran
      (the scripted ticks used) and the select() budgets. */
  datatype Outcome = Outcome(status: Status, sent: seq<char>, text: seq<char>, stored: bool,
                             read: seq<char>, leftover: seq<char>, used: nat, waits: seq<TimeVal>)

  /** sizeof(response_buffer) */
  const ResponseBufferSize: nat := 2048
  /** sizeof(cmd_buffer) */
  const CommandBufferSize: nat := 256
  /** sizeof(temp_buffer) - 1: the most one read() asks for */
  const ReadSize: nat := 64 - 1
  const ErrorToken: CString := "ERROR"
  const Crlf: CString := "\r\n"

  /** The bytes written for a command: snprintf(cmd_buffer, 256, "%s\r\n", command).
      The empty command still sends CR LF; past 253 characters the terminator
      is cut. */
  function Frame(command: CString): (r: CString)
    ensures r <= command + Crlf
    ensures |r| == Min(|command| + 2, CommandBufferSize - 1)
  {
    TruncateKeepsCString(command + Crlf, CommandBufferSize - 1);
    Truncate(command + Crlf, CommandBufferSize - 1)
  }

  /** The remaining-time budget for select(): timeout_ms - elapsed_ms, or 0,
      where elapsed_ms is the uint32 value of whole elapsed seconds times 1000. */
  function Budget(c: Command, s: Session, k: nat): (tv: TimeVal)
    requires k < |s.ticks|
    ensures tv.usec < 1000000 && tv.usec % 1000 == 0
    ensures var elapsedMs := (s.ticks[k].budgetAt - s.startAt) * 1000;
            0 <= elapsedMs < 0x1_0000_0000 ==>
              tv.sec * 1000 + tv.usec / 1000 == if elapsedMs < c.timeoutMs then c.timeoutMs - elapsedMs else 0
  {
    var elapsedMs := ((s.ticks[k].budgetAt - s.startAt) * 1000) % 0x1_0000_0000;
    var remainingMs := if elapsedMs < c.timeoutMs then c.timeoutMs - elapsedMs else 0;
    assert (remainingMs % 1000) * 1000 / 1000 == remainingMs % 1000;
    TimeVal(remainingMs / 1000, (remainingMs % 1000) * 1000)
  }

  /** The deadline check that opens pass k: whole elapsed seconds times 1000
      against the timeout. */
  predicate Expired(c: Command, s: Session, k: nat)
    requires k < |s.ticks|
    ensures Expired(c, s, k) <==> s.ticks[k].checkAt - s.startAt >= (c.timeoutMs + 999) / 1000
  {
    WholeSeconds(s.ticks[k].checkAt - s.startAt, c.timeoutMs);
    (s.ticks[k].checkAt - s.startAt) * 1000 >= c.timeoutMs
  }

  /** With a clock in whole seconds, a timeout of t milliseconds fires once
      ceil(t / 1000) seconds have passed. */
  lemma WholeSeconds(seconds: int, t: nat)
    ensures seconds * 1000 >= t <==> seconds >= (t + 999) / 1000
  {
    var q := (t + 999) / 1000;
    assert 1000 * q <= t + 999 < 1000 * q + 1000;
    if seconds >= q {
      assert seconds * 1000 >= q * 1000;
    } else {
      assert seconds * 1000 <= (q - 1) * 1000;
    }
  }

  /** strstr(response_buffer, expected_response) with a non-NULL marker. */
  predicate Hit(marker: Option<CString>, text: seq<char>)
    ensures Hit(marker, text) ==> marker.Some? && exists i :: OccursAt(CStr(text), marker.value, i)
    ensures marker.Some? && (exists i :: OccursAt(CStr(text), marker.value, i)) ==> Hit(marker, text)
  {
    match marker
    case None => false
    case Some(m) => Contains(CStr(text), m)
  }

  /** Neither the marker nor ERROR is in the text: the loop goes on. */
  predicate Undecided(c: Command, text: seq<char>)
  {
    !Hit(c.marker, text) && !Contains(CStr(text), ErrorToken)
  }

  function Bytes(e: Event): seq<char>
  {
    if e.Readable? then e.arrived else []
  }

  /** Everything that reached the receive queue during the first k passes. */
  function ArrivedBefore(ticks: seq<Tick>, k: nat): seq<char>
    requires k <= |ticks|
  {
    if k == 0 then [] else ArrivedBefore(ticks, k - 1) + Bytes(ticks[k - 1].event)
  }

  /** How many bytes read() returns: what is queued, at most 63. */
  function ReadCount(st: Listening, arrived: seq<char>): nat
  {
    Min(ReadSize, |st.pending + arrived|)
  }

  /** read() into temp_buffer, then the clamped memcpy into the response buffer:
      a chunk that would reach the last byte is cut so that one byte stays free
      for the terminator. */
  function Receive(st: Listening, arrived: seq<char>, cap: nat): (r: Listening)
    requires 1 <= cap && |st.text| <= cap - 1
    ensures |r.text| <= cap - 1
  {
    var queue := st.pending + arrived;
    var n := ReadCount(st, arrived);
    var chunk := queue[..n];
    var kept := if |st.text| + n >= cap then cap - |st.text| - 1 else n;
    st.(pending := queue[n..], read := st.read + chunk, text := st.text + chunk[..kept],
        stored := st.stored || n > 0)
  }

  /** One pass of the polling loop after a deadline check that did not fire. */
  function PollAt(c: Command, s: Session, cap: nat, k: nat, st: Listening): (p: Poll)
    requires k < |s.ticks| && 1 <= cap && |st.text| <= cap - 1
    ensures |After(p).text| <= cap - 1
  {
    var waited := st.(waits := st.waits + [Budget(c, s, k)]);
    match s.ticks[k].event
    case Quiet => Continue(waited)
    case WaitFailed => Return(Error, waited)
    case Readable(arrived) =>
      var next := Receive(waited, arrived, cap);
      if ReadCount(waited, arrived) == 0 then Continue(next)
      else if Hit(c.marker, next.text) then Return(Ok, next)
      else if Contains(CStr(next.text), ErrorToken) then Return(Error, next)
      else Continue(next)
  }

  /** The polling loop from pass k on. */
  function Listen(c: Command, s: Session, cap: nat, k: nat, st: Listening): (r: Stop)
    requires k <= |s.ticks| && 1 <= cap && |st.text| <= cap - 1
    ensures k <= r.used <= |s.ticks| && |r.last.text| <= cap - 1
    decreases |s.ticks| - k
  {
    if k == |s.ticks| || Expired(c, s, k) then Stop(Timeout, st, k)
    else match PollAt(c, s, cap, k, st)
      case Return(status, last) => Stop(status, last, k + 1)
      case Continue(next) => Listen(c, s, cap, k + 1, next)
  }

  const Fresh: Listening := Listening([], [], false, [], [])

  /** One whole call of the executor with a buffer of `cap` bytes. */
  function Exec(c: Command, s: Session, cap: nat): (o: Outcome)
    requires 1 <= cap
    ensures |o.text| <= cap - 1
  {
    if !s.writeOk then Outcome(Error, [], [], false, [], [], 0, [])
    else
      var stop := Listen(c, s, cap, 0, Fresh);
      Outcome(stop.status, Frame(c.text), stop.last.text, stop.last.stored,
              stop.last.read, stop.last.pending, stop.used, stop.last.waits)
  }

  /** The session a call uses: the next scripted one, or a silent line. */
  function NextSession(sessions: seq<Session>): Session
  {
    if sessions == [] then Session(true, 0, []) else sessions[0]
  }

  function Drop(sessions: seq<Session>, n: nat): seq<Session>
  {
    sessions[Min(n, |sessions|)..]
  }

  /** The status the executor returns for command c when the remaining scripted
      sessions are `sessions` (the state machines see only this). */
  function Reply(c: Command, sessions: seq<Session>): (r: Status)
    ensures r != Busy
    ensures c.marker.None? ==> r != Ok
  {
    ExecDecision(c, NextSession(sessions), ResponseBufferSize);
    Exec(c, NextSession(sessions), ResponseBufferSize).status
  }

  // ---------------------------------------------------------------------------
  // What holds of the loop state after k passes

  /** The first k budgets are the ones the source computes, and no deadline
      check among the first k fired. */
  ghost predicate OnSchedule(c: Command, s: Session, k: nat, waits: seq<TimeVal>)
    requires k <= |s.ticks|
  {
    |waits| == k &&
    forall j :: 0 <= j < k ==> waits[j] == Budget(c, s, j) && !Expired(c, s, j)
  }

  /** The bytes read and still queued are exactly what arrived; the text is the
      first cap-1 bytes read; at most 63 bytes per pass were read. */
  ghost predicate Accounted(s: Session, cap: nat, k: nat, st: Listening)
    requires k <= |s.ticks| && 1 <= cap
  {
    st.read + st.pending == ArrivedBefore(s.ticks, k) &&
    st.text == Truncate(st.read, cap - 1) &&
    |st.read| <= ReadSize * k &&
    (st.stored <==> st.read != [])
  }

  /** The bookkeeping that holds after every pass, whatever the verdict. */
  ghost predicate Tracked(c: Command, s: Session, cap: nat, k: nat, st: Listening)
  {
    k <= |s.ticks| && 1 <= cap && |st.text| <= cap - 1 &&
    OnSchedule(c, s, k, st.waits) && Accounted(s, cap, k, st)
  }

  /** The loop invariant: the bookkeeping, and no verdict reached yet. */
  ghost predicate Fits(c: Command, s: Session, cap: nat, k: nat, st: Listening)
  {
    Tracked(c, s, cap, k, st) && (st.stored ==> Undecided(c, st.text))
  }

  /** Why the loop returned what it returned. */
  ghost predicate Verdict(c: Command, s: Session, stop: Stop)
    requires stop.used <= |s.ticks|
  {
    var st := stop.last;
    (stop.status == Ok <==> st.stored && Hit(c.marker, st.text)) &&
    (stop.status == Ok ==> 1 <= stop.used && s.ticks[stop.used - 1].event.Readable?) &&
    (stop.status == Error ==>
       !(st.stored && Hit(c.marker, st.text)) && 1 <= stop.used &&
       (s.ticks[stop.used - 1].event.WaitFailed? || (st.stored && Contains(CStr(st.text), ErrorToken)))) &&
    (stop.status == Timeout ==>
       (stop.used == |s.ticks| || Expired(c, s, stop.used)) &&
       (st.stored ==> Undecided(c, st.text))) &&
    stop.status != Busy
  }

  /** What holds when the loop returns. */
  ghost predicate Ends(c: Command, s: Session, cap: nat, stop: Stop)
  {
    Tracked(c, s, cap, stop.used, stop.last) && Verdict(c, s, stop)
  }

  /** The loop state after pass k, whether the loop goes on or returns. */
  function After(p: Poll): Listening
  {
    if p.Continue? then p.next else p.last
  }

  /** Appending a clamped chunk to the first cap-1 bytes read gives the first
      cap-1 bytes of everything read. */
  lemma TruncateAppend(read: seq<char>, chunk: seq<char>, limit: nat, kept: nat)
    requires kept == if |Truncate(read, limit)| + |chunk| >= limit + 1 then limit - |Truncate(read, limit)| else |chunk|
    requires |Truncate(read, limit)| <= limit
    ensures kept <= |chunk|
    ensures Truncate(read, limit) + chunk[..kept] == Truncate(read + chunk, limit)
  {
    if |read| >= limit {
      assert kept == 0;
      assert (read + chunk)[..limit] == read[..limit];
    } else {
      assert Truncate(read, limit) == read;
      assert (read + chunk)[..|read| + kept] == read + chunk[..kept];
    }
  }

  lemma {:induction false} ArrivedStep(ticks: seq<Tick>, k: nat)
    requires k < |ticks|
    ensures ArrivedBefore(ticks, k + 1) == ArrivedBefore(ticks, k) + Bytes(ticks[k].event)
  {
  }

  /** A read keeps the byte accounting: what was read and what is still queued
      is what arrived, and the text is the first cap-1 bytes read. */
  lemma ReceiveAccounted(s: Session, cap: nat, k: nat, st: Listening)
    requires k < |s.ticks| && s.ticks[k].event.Readable? && 1 <= cap && |st.text| <= cap - 1
    requires Accounted(s, cap, k, st)
    ensures Accounted(s, cap, k + 1, Receive(st, s.ticks[k].event.arrived, cap))
  {
    ReceiveKeepsArrivals(s, k, st, cap);
    ReceiveKeepsPrefix(st, s.ticks[k].event.arrived, cap);
    assert ReadSize * (k + 1) == ReadSize * k + ReadSize;
  }

  lemma ReceiveKeepsArrivals(s: Session, k: nat, st: Listening, cap: nat)
    requires k < |s.ticks| && s.ticks[k].event.Readable? && 1 <= cap && |st.text| <= cap - 1
    requires st.read + st.pending == ArrivedBefore(s.ticks, k)
    ensures var r := Receive(st, s.ticks[k].event.arrived, cap);
            r.read + r.pending == ArrivedBefore(s.ticks, k + 1)
  {
    var arrived := s.ticks[k].event.arrived;
    var queue := st.pending + arrived;
    var n := ReadCount(st, arrived);
    ArrivedStep(s.ticks, k);
    assert queue[..n] + queue[n..] == queue;
    assert st.read + queue[..n] + queue[n..] == st.read + queue;
  }

  lemma ReceiveKeepsPrefix(st: Listening, arrived: seq<char>, cap: nat)
    requires 1 <= cap && |st.text| <= cap - 1
    requires st.text == Truncate(st.read, cap - 1)
    ensures var r := Receive(st, arrived, cap);
            r.text == Truncate(r.read, cap - 1)
  {
    var queue := st.pending + arrived;
    var n := ReadCount(st, arrived);
    var kept := if |st.text| + n >= cap then cap - |st.text| - 1 else n;
    TruncateAppend(st.read, queue[..n], cap - 1, kept);
  }

  /** One pass keeps the bookkeeping, whatever it decides. */
  lemma PollTracked(c: Command, s: Session, cap: nat, k: nat, st: Listening)
    requires Tracked(c, s, cap, k, st) && k < |s.ticks| && !Expired(c, s, k)
    ensures Tracked(c, s, cap, k + 1, After(PollAt(c, s, cap, k, st)))
  {
    var waited := st.(waits := st.waits + [Budget(c, s, k)]);
    assert OnSchedule(c, s, k + 1, waited.waits);
    match s.ticks[k].event
    case Quiet =>
      ArrivedStep(s.ticks, k);
    case WaitFailed =>
      ArrivedStep(s.ticks, k);
    case Readable(arrived) =>
      ReceiveAccounted(s, cap, k, waited);
  }

  /** The text fits the buffer and holds neither marker: no verdict yet. */
  ghost predicate Open(c: Command, cap: nat, st: Listening)
  {
    1 <= cap && |st.text| <= cap - 1 && (st.stored ==> Undecided(c, st.text))
  }

  /** One pass returns only on a verdict it can justify, and goes on only
      while neither marker is in the text. */
  lemma PollVerdict(c: Command, s: Session, cap: nat, k: nat, st: Listening)
    requires k < |s.ticks| && !Expired(c, s, k) && Open(c, cap, st)
    ensures match PollAt(c, s, cap, k, st)
            case Continue(next) => Open(c, cap, next)
            case Return(status, last) => Verdict(c, s, Stop(status, last, k + 1))
  {
    var waited := st.(waits := st.waits + [Budget(c, s, k)]);
    match s.ticks[k].event
    case Quiet =>
    case WaitFailed =>
    case Readable(arrived) =>
      var next := Receive(waited, arrived, cap);
      if ReadCount(waited, arrived) == 0 {
        assert next.text == st.text && next.stored == st.stored;
      } else {
        assert next.stored;
      }
  }

  /** Pass j from state t either goes on in a state satisfying inv or returns
      with a result satisfying fin. */
  ghost predicate PassKeeps(c: Command, s: Session, cap: nat, j: nat, t: Listening,
                            inv: (nat, Listening) -> bool, fin: Stop -> bool)
    requires j < |s.ticks| && 1 <= cap && |t.text| <= cap - 1
  {
    var p := PollAt(c, s, cap, j, t);
    if p.Continue? then inv(j + 1, p.next) else fin(Stop(p.status, p.last, j + 1))
  }

  /** Induction over the passes of the loop: a property of the loop state
      that every pass which goes on preserves, and which yields `fin` at every
      way out of the loop, yields `fin` for the whole run from pass k. */
  lemma {:induction false} ListenInduction(c: Command, s: Session, cap: nat, k: nat, st: Listening,
                                           inv: (nat, Listening) -> bool, fin: Stop -> bool)
    requires k <= |s.ticks| && 1 <= cap && |st.text| <= cap - 1 && inv(k, st)
    requires forall j: nat, t: Listening ::
               j <= |s.ticks| && |t.text| <= cap - 1 && inv(j, t) && (j == |s.ticks| || Expired(c, s, j)) ==>
               fin(Stop(Timeout, t, j))
    requires forall j: nat, t: Listening ::
               j < |s.ticks| && |t.text| <= cap - 1 && inv(j, t) && !Expired(c, s, j) ==>
               PassKeeps(c, s, cap, j, t, inv, fin)
    ensures fin(Listen(c, s, cap, k, st))
    decreases |s.ticks| - k
  {
    if k < |s.ticks| && !Expired(c, s, k) {
      var p := PollAt(c, s, cap, k, st);
      if p.Continue? {
        ListenInduction(c, s, cap, k + 1, p.next, inv, fin);
        assert Listen(c, s, cap, k, st) == Listen(c, s, cap, k + 1, p.next);
      } else {
        assert Listen(c, s, cap, k, st) == Stop(p.status, p.last, k + 1);
      }
    }
  }

  /** The loop from pass k keeps the bookkeeping up to the pass it stops at. */
  lemma ListenTracked(c: Command, s: Session, cap: nat, k: nat, st: Listening)
    requires Tracked(c, s, cap, k, st)
    ensures Tracked(c, s, cap, Listen(c, s, cap, k, st).used, Listen(c, s, cap, k, st).last)
  {
    var inv := (j: nat, t: Listening) => Tracked(c, s, cap, j, t);
    var fin := (stop: Stop) => Tracked(c, s, cap, stop.used, stop.last);
    forall j: nat, t: Listening | j < |s.ticks| && |t.text| <= cap - 1 && inv(j, t) && !Expired(c, s, j)
      ensures PassKeeps(c, s, cap, j, t, inv, fin)
    {
      PollTracked(c, s, cap, j, t);
    }
    ListenInduction(c, s, cap, k, st, inv, fin);
  }

  /** The loop from pass k stops with a verdict Verdict justifies. */
  lemma ListenVerdict(c: Command, s: Session, cap: nat, k: nat, st: Listening)
    requires k <= |s.ticks| && Open(c, cap, st)
    ensures Verdict(c, s, Listen(c, s, cap, k, st))
  {
    var inv := (j: nat, t: Listening) => Open(c, cap, t);
    var fin := (stop: Stop) => stop.used <= |s.ticks| && Verdict(c, s, stop);
    forall j: nat, t: Listening | j < |s.ticks| && |t.text| <= cap - 1 && inv(j, t) && !Expired(c, s, j)
      ensures PassKeeps(c, s, cap, j, t, inv, fin)
    {
      PollVerdict(c, s, cap, j, t);
    }
    ListenInduction(c, s, cap, k, st, inv, fin);
  }

  lemma ListenSound(c: Command, s: Session, cap: nat, k: nat, st: Listening)
    requires Fits(c, s, cap, k, st)
    ensures Ends(c, s, cap, Listen(c, s, cap, k, st))
    ensures k <= Listen(c, s, cap, k, st).used
  {
    ListenTracked(c, s, cap, k, st);
    ListenVerdict(c, s, cap, k, st);
  }

  lemma FreshFits(c: Command, s: Session, cap: nat)
    requires 1 <= cap
    ensures Fits(c, s, cap, 0, Fresh)
  {
  }

  // ---------------------------------------------------------------------------
  // Properties of one executor call

  /** A failed write ends the call with Error before any read: nothing is sent,
      stored or read and select() is never called. */
  lemma ExecWriteFailure(c: Command, s: Session, cap: nat)
    requires 1 <= cap && !s.writeOk
    ensures var o := Exec(c, s, cap);
            o.status == Error && o.sent == [] && !o.stored && o.used == 0 && o.waits == []
  {
  }

  /** What goes on the wire is exactly the first 255 characters of the command
      followed by CR LF; the empty command sends CR LF alone. */
  lemma ExecSends(c: Command, s: Session, cap: nat)
    requires 1 <= cap && s.writeOk
    ensures var o := Exec(c, s, cap);
            o.sent == Truncate(c.text + Crlf, CommandBufferSize - 1) &&
            (c.text == [] ==> o.sent == Crlf) &&
            (|c.text| <= CommandBufferSize - 3 ==> o.sent == c.text + Crlf) &&
            (|c.text| >= CommandBufferSize - 1 ==> o.sent == c.text[..CommandBufferSize - 1])
  {
    assert (c.text + Crlf)[..|c.text|] == c.text;
  }

  /** The status is decided only by what the response text holds once a read
      brought bytes: Ok exactly when the marker is in it (so never with a NULL
      marker), otherwise Error when ERROR is in it; with neither the call keeps
      going until a failed wait or the deadline. */
  lemma {:induction false} ExecDecision(c: Command, s: Session, cap: nat)
    requires 1 <= cap
    ensures var o := Exec(c, s, cap);
            o.used <= |s.ticks| &&
            (o.status == Ok <==> o.stored && Hit(c.marker, o.text)) &&
            (c.marker.None? ==> o.status != Ok) &&
            (o.stored && !Hit(c.marker, o.text) && Contains(CStr(o.text), ErrorToken) ==> o.status == Error) &&
            (o.status == Ok ==> 1 <= o.used && s.ticks[o.used - 1].event.Readable?) &&
            (o.status == Error ==>
               !s.writeOk ||
               (1 <= o.used && (s.ticks[o.used - 1].event.WaitFailed? ||
                                (o.stored && Contains(CStr(o.text), ErrorToken))))) &&
            o.status != Busy
  {
    if s.writeOk {
      FreshFits(c, s, cap);
      ListenSound(c, s, cap, 0, Fresh);
    }
  }

  /** Timing: every select() got the remaining budget, no deadline check fired
      before the last pass, and Timeout comes only from a deadline check that
      found elapsed_seconds * 1000 >= timeout_ms (or from the silence after the
      script). */
  lemma {:induction false} ExecTiming(c: Command, s: Session, cap: nat)
    requires 1 <= cap
    ensures var o := Exec(c, s, cap);
            o.used <= |s.ticks| && |o.waits| == o.used &&
            (forall j :: 0 <= j < o.used ==> o.waits[j] == Budget(c, s, j) && !Expired(c, s, j)) &&
            (o.status == Timeout ==> o.used == |s.ticks| || Expired(c, s, o.used))
  {
    if s.writeOk {
      FreshFits(c, s, cap);
      ListenSound(c, s, cap, 0, Fresh);
    }
  }

  /** The response text is the first cap-1 bytes read (never more than cap-1),
      the bytes read and the bytes left queued together are what arrived, and
      no read took more than 63 bytes. The buffer is written exactly when
      some read returned bytes. */
  lemma {:induction false} ExecBuffer(c: Command, s: Session, cap: nat)
    requires 1 <= cap
    ensures var o := Exec(c, s, cap);
            |o.text| <= cap - 1 && o.used <= |s.ticks| &&
            o.text == Truncate(o.read, cap - 1) &&
            o.read + o.leftover == ArrivedBefore(s.ticks, o.used) &&
            |o.read| <= ReadSize * o.used &&
            (o.stored <==> o.read != []) && (!o.stored ==> o.text == [])
  {
    if s.writeOk {
      FreshFits(c, s, cap);
      ListenSound(c, s, cap, 0, Fresh);
    }
  }
}

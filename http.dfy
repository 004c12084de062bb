/**
 esp_http_get as a specification: four executor calls in a fixed order that
 open a TCP connection, announce the request length, send the request and
 wait for the peer to close, giving up at the first status that is not Ok.
 Like the association machine it sees the executor only through an Oracle.
 */
module Http {
  import opened Wrappers
  import opened CText
  import opened Executor
  import opened Sequencing

  /** sizeof(cmd) and sizeof(request) */
  const FormatBufferSize: nat := 512

  const StartPrefix: CString := "AT+CIPSTART=\"TCP\",\""
  const SendPrefix: CString := "AT+CIPSEND="

  /** snprintf(cmd, 512, "AT+CIPSTART=\"TCP\",\"%s\",%d", host, port) */
  function StartCommand(host: CString, port: int): (c: Command)
    ensures c.text <= StartPrefix + host + "\"," + SignedDecimal(port)
    ensures |c.text| == Min(|host| + 21 + |SignedDecimal(port)|, FormatBufferSize - 1)
    ensures c.marker == Some("CONNECT") && c.timeoutMs == 10000
  {
    var text := StartPrefix + host + "\"," + SignedDecimal(port);
    TruncateKeepsCString(text, FormatBufferSize - 1);
    Command(Truncate(text, FormatBufferSize - 1), Some("CONNECT"), 10000)
  }

  /** snprintf(request, 512, "GET %s HTTP/1.1\r\nHost: %s\r\nConnection: close\r\n\r\n", path, host) */
  function Request(host: CString, path: CString): (r: CString)
    ensures r <= "GET " + path + " HTTP/1.1\r\nHost: " + host + "\r\nConnection: close\r\n\r\n"
    ensures |r| == Min(|path| + |host| + 44, FormatBufferSize - 1)
  {
    var text := "GET " + path + " HTTP/1.1\r\nHost: " + host + "\r\nConnection: close\r\n\r\n";
    TruncateKeepsCString(text, FormatBufferSize - 1);
    Truncate(text, FormatBufferSize - 1)
  }

  /** snprintf(cmd, 512, "AT+CIPSEND=%d", (int)strlen(request)); the text is
      always short enough to escape the cut. */
  function SendLengthCommand(request: CString): (c: Command)
    requires |request| < FormatBufferSize
    ensures c.marker == Some(">") && c.timeoutMs == 5000
  {
    var text := SendPrefix + Decimal(|request|);
    DecimalLength(|request|);
    Command(Truncate(text, FormatBufferSize - 1), Some(">"), 5000)
  }

  /** A number below 1000 has at most three digits. */
  lemma DecimalLength(n: nat)
    requires n < 1000
    ensures |Decimal(n)| <= 3
  {
    if n >= 10 {
      DecimalLength(n / 10);
    }
  }

  function PayloadCommand(request: CString): Command
  {
    Command(request, Some("+IPD"), 10000)
  }

  const CloseWaitCommand: Command := Command("", Some("CLOSED"), 15000)

  /** The four commands of an exchange in which every step succeeds. */
  function HttpPlan(host: CString, port: int, path: CString): seq<Command>
  {
    var request := Request(host, path);
    [StartCommand(host, port), SendLengthCommand(request), PayloadCommand(request), CloseWaitCommand]
  }

  datatype Exchange = Exchange(ok: bool, calls: seq<Command>)

  /** The body of esp_http_get, early returns and all: open the connection,
      then deliver the request. */
  function HttpGet(host: CString, port: int, path: CString, reply: Oracle, sessions: seq<Session>): (x: Exchange)
    ensures 1 <= |x.calls| <= 4 && x.calls[0] == StartCommand(host, port)
    ensures x.ok ==> |x.calls| == 4
  {
    var start := StartCommand(host, port);
    if reply(start, sessions) != Ok then Exchange(false, [start])
    else
      var rest := Deliver(Request(host, path), reply, Drop(sessions, 1));
      Exchange(rest.ok, [start] + rest.calls)
  }

  /** The rest of esp_http_get once the connection is open: announce the
      length, send the request, wait for the peer to close. */
  function Deliver(request: CString, reply: Oracle, sessions: seq<Session>): (x: Exchange)
    requires |request| < FormatBufferSize
    ensures 1 <= |x.calls| <= 3 && x.calls[0] == SendLengthCommand(request)
    ensures x.ok ==> |x.calls| == 3
  {
    var announce := SendLengthCommand(request);
    var payload := PayloadCommand(request);
    if reply(announce, sessions) != Ok then Exchange(false, [announce])
    else if reply(payload, Drop(sessions, 1)) != Ok then Exchange(false, [announce, payload])
    else Exchange(reply(CloseWaitCommand, Drop(sessions, 2)) == Ok, [announce, payload, CloseWaitCommand])
  }

  /** Every exchange is the reference run of its plan: the four commands in
      order up to and including the first that fails, and true exactly when
      all four got Ok. */
  lemma HttpFollowsPlan(host: CString, port: int, path: CString, reply: Oracle, sessions: seq<Session>)
    ensures var plan := HttpPlan(host, port, path);
            HttpGet(host, port, path, reply, sessions) ==
            Exchange(Completes(plan, reply, sessions), plan[..Attempts(plan, reply, sessions)])
  {
    var plan := HttpPlan(host, port, path);
    AttemptsOfFour(plan[0], plan[1], plan[2], plan[3], reply, sessions);
    assert plan == [plan[0], plan[1], plan[2], plan[3]];
    assert plan[..1] == [plan[0]];
    assert plan[..2] == [plan[0], plan[1]];
    assert plan[..3] == [plan[0], plan[1], plan[2]];
  }

  /** true means all four commands were issued, in order, and each got Ok;
      false means the exchange stopped at the first that did not. */
  lemma HttpOutcome(host: CString, port: int, path: CString, reply: Oracle, sessions: seq<Session>)
    ensures var x := HttpGet(host, port, path, reply, sessions);
            1 <= |x.calls| <= 4 &&
            x.calls <= HttpPlan(host, port, path) &&
            (forall k :: 0 <= k < |x.calls| - 1 ==> Answered(reply, x.calls, sessions, k)) &&
            (x.ok <==> |x.calls| == 4 && Answered(reply, x.calls, sessions, 3)) &&
            (!x.ok ==> !Answered(reply, x.calls, sessions, |x.calls| - 1))
  {
    var plan := HttpPlan(host, port, path);
    HttpFollowsPlan(host, port, path, reply, sessions);
    AttemptsStopAtFirstFailure(plan, reply, sessions);
    var n := Attempts(plan, reply, sessions);
    forall k | 0 <= k < n
      ensures Answered(reply, plan[..n], sessions, k) <==> Answered(reply, plan, sessions, k)
    {
    }
  }

  /** The announced length is the length of the request text, which the
      512-byte buffer keeps below 512. */
  lemma AnnouncedLength(host: CString, path: CString)
    ensures var request := Request(host, path);
            var text := SendLengthCommand(request).text;
            |request| <= FormatBufferSize - 1 &&
            text[..|SendPrefix|] == SendPrefix &&
            ParseDecimal(text[|SendPrefix|..]) == |request|
  {
    var request := Request(host, path);
    DecimalLength(|request|);
    var text := SendLengthCommand(request).text;
    assert text == SendPrefix + Decimal(|request|);
    assert text[|SendPrefix|..] == Decimal(|request|);
    DecimalRoundTrip(|request|);
  }

  /** What goes on the wire after the announcement is the request framed by
      the executor: two bytes more than announced for a request of up to 253
      characters, and the request cut to 255 characters beyond that. The
      count written equals the count announced only for a request of exactly
      255 characters. */
  lemma PayloadOnWire(host: CString, path: CString)
    ensures var request := Request(host, path);
            var sent := Frame(PayloadCommand(request).text);
            (|request| <= CommandBufferSize - 3 ==> sent == request + Crlf) &&
            (|request| >= CommandBufferSize - 1 ==> sent == request[..CommandBufferSize - 1]) &&
            (|sent| == |request| <==> |request| == CommandBufferSize - 1)
  {
  }

  /** A request cut by the 512-byte buffer loses its blank line. */
  lemma LongRequestCut(host: CString, path: CString)
    ensures |path| + |host| + 44 <= FormatBufferSize - 1 ==>
            Request(host, path) == "GET " + path + " HTTP/1.1\r\nHost: " + host + "\r\nConnection: close\r\n\r\n"
    ensures |path| + |host| + 44 > FormatBufferSize - 1 ==> |Request(host, path)| == FormatBufferSize - 1
  {
  }
}

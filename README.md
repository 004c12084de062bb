# ESP8266 AT-command engine, modelled in Dafny

This project models the protocol engine of a small Linux driver for an
ESP8266 Wi-Fi module attached to a serial line (`src/esp8266.c`). The engine
has four parts:

- the **command executor** `esp_send_command_wait_response`: it flushes the
  line, writes the command framed with CR LF, then polls the line with
  `select()` and `read()`, appending what arrives to the caller's response
  buffer until the expected marker, the literal `ERROR`, a failed wait or
  the deadline ends the call;
- the **substring extractor** `esp_extract_substring`;
- the **association state machine** `esp_init_and_connect`, a loop over the
  global `esp_state` that resets the module, probes it, sets station mode,
  joins the access point and waits for an address;
- the **HTTP exchange** `esp_http_get`: four executor calls that open a TCP
  connection, announce the request length, send the request and wait for
  the peer to close.

The files:

| file | module | what it holds |
|---|---|---|
| `wrappers.dfy` | `Wrappers` | `Option` |
| `ctext.dfy` | `CText` | C strings: `snprintf` truncation, `strstr`, the NUL-terminated view of a buffer, `%d` formatting |
| `executor.dfy` | `Executor` | the executor as a function `Exec` of a scripted session, and its proved properties |
| `extract.dfy` | `Extract` | the extractor and its found/not-found characterisation |
| `sequencing.dfy` | `Sequencing` | the reference "issue these commands, stop at the first failure" run both state machines are proved against |
| `association.dfy` | `Association` | the association loop as a function of `esp_state`, proved equal to the reference run |
| `http.dfy` | `Http` | the HTTP exchange as a function, proved equal to the reference run; the formatted commands |
| `device.dfy` | `Device` | the imperative code: a `Uart` object, the executor loop over an `array<char>` buffer, and a class `Esp` holding `esp_state` and the global `response_buffer`, with `InitAndConnect` and `HttpGet` |

**Time and the line are a script.** Each executor call consumes one
`Session`: whether `write()` succeeds, what `time(NULL)` read when the wait
started, and, for each pass of the polling loop, the two clock readings the
pass takes (the deadline check and the budget computation each call
`time(NULL)`) and what `select()` reported (`Readable(arrived)` with the
bytes that reached the receive queue, `Quiet`, or `WaitFailed`). Each
`read()` takes at most 63 queued bytes (`sizeof(temp_buffer) - 1`). When a
session's passes run out the call ends in Timeout, whatever is still queued;
when the list of sessions runs out, calls meet a silent line.

**The state machines see the executor as an oracle.** `Association` and
`Http` are stated for any `reply: (Command, seq<Session>) -> Status`. The
device methods take a ghost `reply` with the precondition
`Device.Executes(reply, run)`, which says that `reply` is `Executor.Reply`, the
status `Exec` gives for the next session with the 2048-byte buffer, and that
`run` is that call's whole outcome (bytes sent, text stored). So what is
proved of the state machines holds of the real executor.

`ESP_Status` (`include/esp8266.h:9-15`) is `Executor.Status`; `Busy` is
never returned (`Executor.ExecDecision`). `ESP_State` is the full
ten-value enumeration of `src/esp8266.c:18-30`; the TCP and HTTP values are
never entered.

Details of the code the model keeps:

- the empty command still writes CR LF (the executor always formats
  `"%s\r\n"`);
- `temp_buffer` holds 64 bytes, but each `read()` asks for 63
  (`sizeof(temp_buffer) - 1`);
- the response buffer is not cleared when a call starts: a call that reads
  nothing leaves it exactly as it was, and a call that reads something
  rewrites only the text and its terminator (`Device.BufferHolds`);
- the switch handles three of the ten `ESP_State` values: the loop does not
  run from Connected or Error (the `while` condition excludes them, and
  Connected returns true), and any value other than Reset, Init, ConnectAp,
  Connected and Error sends the loop to Error.

## Model

| member | source | states |
|---|---|---|
| CText.Truncate | src/esp8266.c:140 | what a bounded `snprintf` keeps: a prefix of the formatted text of length min(length, limit) |
| CText.FindFrom | src/esp8266.c:220 | `strstr` from an offset: the leftmost occurrence at or after it, or None when there is none |
| CText.Contains | src/esp8266.c:188-193 | `strstr` finds the needle exactly when it occurs somewhere in the text |
| CText.CStr | src/esp8266.c:185-188 | what string functions see of a buffer: a prefix ending at the first NUL or at the end |
| CText.CStrStopsAtNul | src/esp8266.c:185-188 | a terminator hides everything after it from `strstr` |
| CText.SignedDecimal | src/esp8266.c:245 | `%d` of an int: non-empty, starts with '-' exactly for negative values, the plain digits otherwise |
| CText.DecimalRoundTrip | src/esp8266.c:261 | reading back the digits `%d` wrote gives the number |
| Executor.Frame | src/esp8266.c:139-141 | the bytes written: a prefix of the command plus CR LF, at most 255 of them |
| Executor.Budget | src/esp8266.c:162-167 | the `select()` timeout: whole milliseconds, microseconds below one second, and equal to the timeout minus the elapsed milliseconds (or 0) when the elapsed value fits 32 bits |
| Executor.Receive | src/esp8266.c:173-185 | one read and clamped append never leave more than buffer_size - 1 bytes of text |
| Executor.PollAt | src/esp8266.c:159-203 | one pass of the loop keeps the text within buffer_size - 1 bytes |
| Executor.Listen | src/esp8266.c:153-204 | the polling loop stops within the scripted passes, with the text in bounds |
| Executor.Exec | src/esp8266.c:129-205 | a whole call leaves at most buffer_size - 1 bytes of text |
| Executor.TruncateAppend | src/esp8266.c:178-185 | appending the clamped chunk to the kept text keeps exactly the first buffer_size - 1 bytes of all that was read |
| Executor.ReceiveKeepsArrivals | src/esp8266.c:173-174 | bytes read plus bytes still queued are exactly the bytes that arrived |
| Executor.ReceiveKeepsPrefix | src/esp8266.c:176-185 | after a read the text is still the first buffer_size - 1 bytes read |
| Executor.ReceiveAccounted | src/esp8266.c:173-185 | a read keeps the byte accounting, at most 63 bytes per pass |
| Executor.PollTracked | src/esp8266.c:155-203 | each pass records the budget it computed and keeps the byte accounting, whatever it decides |
| Executor.PollVerdict | src/esp8266.c:171-203 | a pass returns Ok only on the marker, Error only on ERROR or a failed wait, and goes on only while neither marker is in the text |
| Executor.ListenInduction | src/esp8266.c:153-204 | a property every continuing pass preserves and every exit satisfies holds of the loop's result |
| Executor.ListenTracked | src/esp8266.c:153-204 | the bookkeeping holds when the loop stops |
| Executor.ListenVerdict | src/esp8266.c:153-204 | the loop stops with a justified verdict |
| Executor.ListenSound | src/esp8266.c:153-204 | the loop stops in a state meeting both the bookkeeping and the verdict |
| Executor.FreshFits | src/esp8266.c:149-150 | the loop starts with nothing read, no budget used and no verdict |
| Executor.Expired | src/esp8266.c:155 | with a clock in whole seconds, the deadline check fires once ceil(timeout_ms / 1000) seconds have passed |
| Executor.WholeSeconds | src/esp8266.c:155 | seconds * 1000 >= t exactly when seconds >= ceil(t / 1000) |
| Executor.Hit | src/esp8266.c:188 | the marker test succeeds exactly when a marker is given and occurs in the text before its terminator |
| Executor.Reply | src/esp8266.c:129-205 | the status a call returns is never Busy, and never Ok without a marker |
| Executor.ExecWriteFailure | src/esp8266.c:141-144 | a failed write returns Error with nothing sent, read, stored or waited for |
| Executor.ExecSends | src/esp8266.c:139-141 | the wire gets the first 255 characters of command + CR LF: CR LF alone for the empty command, the whole frame up to 253 characters, a cut command beyond |
| Executor.ExecDecision | src/esp8266.c:176-203 | Ok exactly when a read stored text containing the marker (never with a NULL marker); Error on ERROR without the marker, on a failed wait or a failed write; the pass that decided; never Busy |
| Executor.ExecTiming | src/esp8266.c:155-169 | every `select()` got the computed budget, no deadline check fired before the last pass, and Timeout comes only from a deadline check that fired or a silent line |
| Executor.ExecBuffer | src/esp8266.c:173-185 | the text is the first buffer_size - 1 bytes read, read plus queued is what arrived, at most 63 bytes per pass, and the buffer is written exactly when some read returned bytes |
| CText.Find | src/esp8266.c:213 | `strstr`: the occurrence found is the leftmost one, and none is found only when there is none |
| CText.Decimal | src/esp8266.c:261 | `%d` for a non-negative length: at least one digit, all digits, no leading zero |
| Extract.ExtractSubstring | src/esp8266.c:210-237 | a found value always fits the output with its terminator |
| Extract.ExtractNotFound | src/esp8266.c:213-225 | false exactly when the start delimiter is absent or no end delimiter begins after its first occurrence |
| Extract.ExtractAt | src/esp8266.c:213-234 | the result is fixed by the leftmost start delimiter and the leftmost end delimiter after it |
| Extract.ExtractFramed | src/esp8266.c:210-237 | round trip: a value framed by its delimiters comes back, cut to output_size - 1 characters |
| Extract.ExtractFound | src/esp8266.c:219-234 | a found value is taken from what lies after the first (leftmost) start delimiter, holds no end delimiter, and is cut only when the output is full |
| Sequencing.Attempts | src/esp8266.c:246-285 | the number of commands issued by a stop-at-first-failure run is between 1 and the plan's length |
| Sequencing.AttemptsStopAtFirstFailure | src/esp8266.c:246-285 | every call before the last got Ok, the last got Ok only when the whole plan did, and the plan completes exactly when every call was made and got Ok |
| Sequencing.AttemptsOfFour | src/esp8266.c:246-285 | a four-command run unrolled: how many calls, and success exactly when all four got Ok |
| Association.JoinText | src/esp8266.c:90-91 | the join command is a prefix of `AT+CWJAP="ssid","password"` cut at 127 characters |
| Association.Step | src/esp8266.c:42-122 | each pass of the switch moves to a state of lower rank, so the loop ends |
| Association.AssociateUnfold | src/esp8266.c:40-123 | the loop is one pass of the switch followed by the loop from the new state |
| Association.AssociateResumes | src/esp8266.c:40-123 | the loop invariant carried over one pass: calls made so far plus the run from the new state give the whole run |
| Association.RunFromConnectAp | src/esp8266.c:87-117 | from ConnectAp: join, then wait for an address, stopping at the first failure; Connected exactly when both got Ok |
| Association.RunFromInit | src/esp8266.c:61-85 | from Init: probe, set mode, then the ConnectAp run, stopping at the first failure |
| Association.RunFromReset | src/esp8266.c:44-59 | from Reset: reset, then the Init run, stopping at the first failure |
| Association.AssociateFollowsPlan | src/esp8266.c:35-126 | every run issues its state's commands in order up to the first failure and ends Connected exactly when all got Ok (or it started Connected), else Error |
| Association.AssociateFromReset | src/esp8266.c:44-117 | from Reset, Connected exactly when the five commands were issued in order and each got Ok |
| Association.ModeFailureStopsBeforeJoin | src/esp8266.c:69-79 | a failed mode-set ends in Error after three commands, before the join |
| Association.AssociateFromOtherStates | src/esp8266.c:40-121 | Connected and Error persist and issue nothing; any other unhandled state goes to Error with no command |
| Association.Associate | src/esp8266.c:40-123 | the loop ends in Connected or Error and makes at most as many calls as its state's plan holds |
| Association.PassesBound | src/esp8266.c:40-123 | the loop makes no pass from Connected or Error and at most three passes otherwise (one from ConnectAp, two from Init, three from Reset) |
| Association.JoinTextCut | src/esp8266.c:90-91 | credentials of up to 113 characters together give the whole command; longer ones are cut to 127 characters |
| Http.HttpGet | src/esp8266.c:239-286 | the exchange makes one to four calls, the first being CIPSTART, and succeeds only after all four |
| Http.Deliver | src/esp8266.c:260-285 | after CIPSTART: one to three calls, the first being CIPSEND for the request's length, and success only after all three |
| Http.StartCommand | src/esp8266.c:245-248 | the CIPSTART command: a prefix of `AT+CIPSTART="TCP","host",port` cut at 511 characters, marker CONNECT, 10 s |
| Http.Request | src/esp8266.c:255-258 | the request: a prefix of the GET text cut at 511 characters |
| Http.SendLengthCommand | src/esp8266.c:261-264 | the CIPSEND command: marker ">", 5 s |
| Http.DecimalLength | src/esp8266.c:261 | a length below 1000 prints in at most three digits, so the CIPSEND command is never cut |
| Http.HttpFollowsPlan | src/esp8266.c:239-286 | the exchange issues CIPSTART, CIPSEND, the request and the close wait in order up to the first failure, and is true exactly when all four got Ok |
| Http.HttpOutcome | src/esp8266.c:239-286 | one to four calls, a prefix of the plan; true exactly when four calls were made and the last got Ok; false names the failing call |
| Http.AnnouncedLength | src/esp8266.c:255-264 | CIPSEND announces exactly strlen(request), which is below 512 |
| Http.PayloadOnWire | src/esp8266.c:139-141 | the request goes out as request + CR LF up to 253 characters and cut to 255 characters beyond; the count written equals the count announced only for 255 characters |
| Http.LongRequestCut | src/esp8266.c:255-258 | a request whose text exceeds 511 characters is cut to 511 and loses its ending |
| Device.SendCommandWaitResponse | src/esp8266.c:129-205 | the loop over the real buffer does exactly what Exec says: status, bytes written, budgets, queue left over, sessions used, and the buffer's new contents |
| Device.Pass | src/esp8266.c:159-203 | one pass of the loop body does what PollAt says and keeps the variables in step with the specification's loop state |
| Device.ReadChunk | src/esp8266.c:171-196 | a read does what Receive says; the call ends exactly when bytes were read and the marker or ERROR is in the text, with Ok on the marker |
| Device.Append | src/esp8266.c:176-185 | the clamped `memcpy`: the new length, the old text followed by the kept chunk, a terminator after it and every later byte untouched |
| Device.TerminatedText | src/esp8266.c:185-193 | `strstr` on the buffer sees exactly the text before the terminator |
| Device.Ask | src/esp8266.c:46-48 | a state-machine call returns the executor's status for the next session and uses it up, puts that call's bytes on the wire, appends its `select()` budgets, leaves the executor's leftover bytes queued, leaves in the buffer what the executor stored, and stored text whenever the status is Ok |
| Device.Esp.constructor | src/esp8266.c:32-33 | `esp_state` starts at Reset; the buffer holds 2048 zero bytes |
| Device.Esp.InitAndConnect | src/esp8266.c:35-126 | the loop ends in the state Associate gives, returns true exactly when Connected, issues exactly Associate's calls, and makes Passes passes, at most three |
| Device.Esp.Advance | src/esp8266.c:42-122 | one pass of the loop keeps the loop invariant (calls so far plus the run from the new state give the whole run) and lowers the rank |
| Device.Esp.SwitchPass | src/esp8266.c:42-122 | one pass of the switch moves `esp_state` as Step says and issues Step's calls |
| Device.Esp.Deliver | src/esp8266.c:260-285 | the last three calls issue and return what Http.Deliver gives, and on success the buffer holds the close-wait reply |
| Device.Esp.HttpGet | src/esp8266.c:239-286 | the exchange returns and issues what Http.HttpGet gives, on success leaves the close-wait reply with its terminator in `response_buffer`, and leaves `esp_state` unchanged |

## Left out

- `src/main.c` is not part of this model: it only opens and configures the serial device and calls the entry points.
- Opening and configuring the serial line, `perror` output and the one-second `usleep` after a reset are not modelled; they change no state the model tracks.
- `write()` is all or nothing: a short write is not modelled, and the bytes written are the whole frame.
- `read()` returning -1 is folded into a read that returns no bytes; both only send the loop to its next pass.
- `select()` reporting readiness is taken to mean bytes may be queued; a readable event with nothing queued reads nothing.
- The clock is a list of readings per pass; a 64-bit `time_t` overflow is not modelled, while the 32-bit wrap of `elapsed_ms` is.
- `ESP_ATCommand` (`include/esp8266.h:17-22`) is declared but never used, so it has no counterpart.
- Extract.ExtractSubstring: requires output_size of at least 1; with 0 the source computes a length of SIZE_MAX and writes outside the output, which has no defined result to model.
- Extract.ExtractSubstring: the result is a value, not a write into a caller buffer; `strncpy` copies exactly the delimited prefix because it holds no NUL.
- Device.SendCommandWaitResponse: the response buffer is an `array<char>` of the given size; aliasing it with the command or marker strings is not modelled.
- Device.Esp.InitAndConnect, Device.Esp.HttpGet: the ghost `reply` and `run` must be the executor's status and outcome functions (`Device.Executes`); the state-machine results are stated through them.
- Executor.Expired: assumes a signed, 64-bit `time_t`, so the elapsed time `time(NULL) - start_time` at line 155 is compared signed; a clock reading that steps backwards gives a negative elapsed time and the deadline does not fire. On a build with a 32-bit `time_t` and `long` the comparison is unsigned and a backwards step fires the deadline at once; that build is not modelled.
- Device.Esp.InitAndConnect, Device.Esp.HttpGet: the bytes on the wire, the `select()` budgets and the receive queue are stated per call (Device.Ask, Device.SendCommandWaitResponse), not accumulated over the exchange; InitAndConnect does not state the buffer's contents afterwards.
- Executor.Reply: two scripted environments the C program cannot meet are allowed: bytes still queued when a session's passes run out are never read (the call ends in Timeout), and `Quiet` may be scripted while bytes are queued. For such scripts the status is the model's, not C's; for every other script it is C's.
- Concurrency: the global buffer and `esp_state` are used by one caller at a time.

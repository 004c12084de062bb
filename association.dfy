/**
 esp_init_and_connect as a specification: the association state machine, its
 fixed commands and the run it makes from a given esp_state. The executor is
 seen only through the status it returns: `reply(c, sessions)` is that status
 for command c when `sessions` are the scripted sessions still to come (the
 device instantiates it with Executor.Reply). Each call uses up one session.
 */
module Association {
  import opened Wrappers
  import opened CText
  import opened Executor
  import opened Sequencing

  /** ESP_State; the TCP and HTTP values are declared but unused by the machine. */
  datatype State = Reset | Init | ConnectAp | Connected
                 | TcpConnect | TcpConnected | HttpSend | HttpResponse | TcpClose
                 | Error

  const ResetCommand: Command := Command("AT+RST", Some("ready"), 5000)
  const ProbeCommand: Command := Command("AT", Some("OK"), 1000)
  const ModeCommand: Command := Command("AT+CWMODE=1", Some("OK"), 1000)
  const WaitIpCommand: Command := Command("", Some("WIFI GOT IP"), 10000)

  /** sizeof(connect_cmd) */
  const JoinBufferSize: nat := 128

  /** snprintf(connect_cmd, 128, "AT+CWJAP=\"%s\",\"%s\"", ssid, password) */
  function JoinText(ssid: CString, password: CString): (r: CString)
    ensures r <= "AT+CWJAP=\"" + ssid + "\",\"" + password + "\""
    ensures |r| == Min(|ssid| + |password| + 14, JoinBufferSize - 1)
  {
    TruncateKeepsCString("AT+CWJAP=\"" + ssid + "\",\"" + password + "\"", JoinBufferSize - 1);
    Truncate("AT+CWJAP=\"" + ssid + "\",\"" + password + "\"", JoinBufferSize - 1)
  }

  function JoinCommand(ssid: CString, password: CString): Command
  {
    Command(JoinText(ssid, password), Some("WIFI CONNECTED"), 20000)
  }

  /** The commands a run from `st` issues when every one of them succeeds. */
  function Plan(st: State, ssid: CString, password: CString): seq<Command>
  {
    match st
    case Reset => [ResetCommand, ProbeCommand, ModeCommand, JoinCommand(ssid, password), WaitIpCommand]
    case Init => [ProbeCommand, ModeCommand, JoinCommand(ssid, password), WaitIpCommand]
    case ConnectAp => [JoinCommand(ssid, password), WaitIpCommand]
    case _ => []
  }

  /** Passes of the loop still possible from a state. */
  function Rank(st: State): nat
  {
    match st
    case Reset => 3
    case Init => 2
    case Connected => 0
    case Error => 0
    case _ => 1
  }

  predicate Terminal(st: State)
  {
    st == Connected || st == State.Error
  }

  datatype Run = Run(final: State, calls: seq<Command>)


  /** One pass of the switch in the loop: the next state and the commands issued. */
  function Step(st: State, ssid: CString, password: CString, reply: Oracle, sessions: seq<Session>): (r: Run)
    requires !Terminal(st)
    ensures Rank(r.final) < Rank(st)
  {
    match st
    case Reset =>
      if reply(ResetCommand, sessions) == Ok then Run(Init, [ResetCommand])
      else Run(State.Error, [ResetCommand])
    case Init =>
      if reply(ProbeCommand, sessions) != Ok then Run(State.Error, [ProbeCommand])
      else if reply(ModeCommand, Drop(sessions, 1)) == Ok then Run(ConnectAp, [ProbeCommand, ModeCommand])
      else Run(State.Error, [ProbeCommand, ModeCommand])
    case ConnectAp =>
      var join := JoinCommand(ssid, password);
      if reply(join, sessions) != Ok then Run(State.Error, [join])
      else if reply(WaitIpCommand, Drop(sessions, 1)) == Ok then Run(Connected, [join, WaitIpCommand])
      else Run(State.Error, [join, WaitIpCommand])
    case _ => Run(State.Error, [])
  }

  /** The whole loop: passes of the switch until Connected or Error. */
  function Associate(st: State, ssid: CString, password: CString, reply: Oracle, sessions: seq<Session>): (r: Run)
    ensures Terminal(r.final)
    ensures |r.calls| <= |Plan(st, ssid, password)|
    decreases Rank(st)
  {
    if Terminal(st) then Run(st, [])
    else
      var first := Step(st, ssid, password, reply, sessions);
      var rest := Associate(first.final, ssid, password, reply, Drop(sessions, |first.calls|));
      Run(rest.final, first.calls + rest.calls)
  }

  /** The loop, one pass at a time. */
  lemma AssociateUnfold(st: State, ssid: CString, password: CString, reply: Oracle, sessions: seq<Session>)
    requires !Terminal(st)
    ensures var first := Step(st, ssid, password, reply, sessions);
            var rest := Associate(first.final, ssid, password, reply, Drop(sessions, |first.calls|));
            Associate(st, ssid, password, reply, sessions) == Run(rest.final, first.calls + rest.calls)
  {
  }

  /** The loop's invariant carried over one pass: `done` are the calls made
      so far in the run `whole`, and what is left of it is the run from the
      current state. */
  lemma AssociateResumes(whole: Run, st: State, sessions: seq<Session>, done: seq<Command>,
                         ssid: CString, password: CString, reply: Oracle, next: State, pass: seq<Command>)
    requires !Terminal(st)
    requires done + Associate(st, ssid, password, reply, sessions).calls == whole.calls
    requires Associate(st, ssid, password, reply, sessions).final == whole.final
    requires Step(st, ssid, password, reply, sessions) == Run(next, pass)
    ensures done + pass + Associate(next, ssid, password, reply, Drop(sessions, |pass|)).calls == whole.calls
    ensures Associate(next, ssid, password, reply, Drop(sessions, |pass|)).final == whole.final
    ensures Passes(st, ssid, password, reply, sessions) == 1 + Passes(next, ssid, password, reply, Drop(sessions, |pass|))
  {
    var rest := Associate(next, ssid, password, reply, Drop(sessions, |pass|));
    AssociateUnfold(st, ssid, password, reply, sessions);
    assert done + pass + rest.calls == done + (pass + rest.calls);
  }

  /** The run of the machine from `st`, as the reference sequencer sees it:
      the plan's commands up to the first failure, ending Connected exactly
      when the machine was already there or the whole plan got Ok. */
  function Expected(st: State, ssid: CString, password: CString, reply: Oracle, sessions: seq<Session>): Run
  {
    var plan := Plan(st, ssid, password);
    Run(if st == Connected || (plan != [] && Completes(plan, reply, sessions)) then Connected else State.Error,
        plan[..Attempts(plan, reply, sessions)])
  }

  lemma RunFromConnectAp(ssid: CString, password: CString, reply: Oracle, sessions: seq<Session>)
    ensures Associate(ConnectAp, ssid, password, reply, sessions) == Expected(ConnectAp, ssid, password, reply, sessions)
  {
    var plan := Plan(ConnectAp, ssid, password);
    var join := JoinCommand(ssid, password);
    assert plan[1..] == [WaitIpCommand];
    assert plan[1..][1..] == [];
    if reply(join, sessions) != Ok {
      assert Attempts(plan, reply, sessions) == 1;
      assert !Completes(plan, reply, sessions);
    } else if reply(WaitIpCommand, Drop(sessions, 1)) != Ok {
      assert Attempts(plan, reply, sessions) == 2;
      assert !Completes(plan, reply, sessions);
      assert plan[..2] == [join, WaitIpCommand];
    } else {
      assert Attempts(plan, reply, sessions) == 2;
      assert Completes(plan, reply, sessions);
      assert plan[..2] == [join, WaitIpCommand];
    }
  }

  lemma RunFromInit(ssid: CString, password: CString, reply: Oracle, sessions: seq<Session>)
    ensures Associate(Init, ssid, password, reply, sessions) == Expected(Init, ssid, password, reply, sessions)
  {
    var plan := Plan(Init, ssid, password);
    if reply(ProbeCommand, sessions) != Ok {
      assert Attempts(plan, reply, sessions) == 1;
      assert !Completes(plan, reply, sessions);
    } else if reply(ModeCommand, Drop(sessions, 1)) != Ok {
      assert plan[1..][0] == ModeCommand;
      assert Attempts(plan, reply, sessions) == 2;
      assert !Completes(plan, reply, sessions);
      assert plan[..2] == [ProbeCommand, ModeCommand];
    } else {
      var rest := Drop(sessions, 2);
      var tailPlan := Plan(ConnectAp, ssid, password);
      var tail := Associate(ConnectAp, ssid, password, reply, rest);
      assert Associate(Init, ssid, password, reply, sessions) == Run(tail.final, [ProbeCommand, ModeCommand] + tail.calls) by {
        assert Step(Init, ssid, password, reply, sessions) == Run(ConnectAp, [ProbeCommand, ModeCommand]);
      }
      RunFromConnectAp(ssid, password, reply, rest);
      var m := Attempts(tailPlan, reply, rest);
      assert Attempts(plan, reply, sessions) == 2 + m && (Completes(plan, reply, sessions) == Completes(tailPlan, reply, rest)) by {
        assert plan[1..][1..] == tailPlan;
        DropDrop(sessions, 1, 1);
      }
      assert plan[..2 + m] == [ProbeCommand, ModeCommand] + tailPlan[..m];
    }
  }

  lemma RunFromReset(ssid: CString, password: CString, reply: Oracle, sessions: seq<Session>)
    ensures Associate(Reset, ssid, password, reply, sessions) == Expected(Reset, ssid, password, reply, sessions)
  {
    var plan := Plan(Reset, ssid, password);
    var rest := Drop(sessions, 1);
    assert plan[1..] == Plan(Init, ssid, password);
    if reply(ResetCommand, sessions) == Ok {
      RunFromInit(ssid, password, reply, rest);
      var tail := Plan(Init, ssid, password)[..Attempts(Plan(Init, ssid, password), reply, rest)];
      assert plan[..Attempts(plan, reply, sessions)] == [ResetCommand] + tail;
    }
  }

  /** Every run is the reference run: it issues the plan's commands in order
      up to and including the first that fails, and ends Connected exactly
      when it started there or every command got Ok, else in Error. */
  lemma AssociateFollowsPlan(st: State, ssid: CString, password: CString, reply: Oracle, sessions: seq<Session>)
    ensures Associate(st, ssid, password, reply, sessions) == Expected(st, ssid, password, reply, sessions)
    ensures Terminal(Associate(st, ssid, password, reply, sessions).final)
  {
    match st
    case Reset => RunFromReset(ssid, password, reply, sessions);
    case Init => RunFromInit(ssid, password, reply, sessions);
    case ConnectAp => RunFromConnectAp(ssid, password, reply, sessions);
    case _ =>
  }

  /** From Reset, success means exactly the five commands were issued, in order,
      with their fixed markers and timeouts, and each got Ok. */
  lemma AssociateFromReset(ssid: CString, password: CString, reply: Oracle, sessions: seq<Session>)
    ensures var r := Associate(Reset, ssid, password, reply, sessions);
            r.final == Connected <==>
              r.calls == [ResetCommand, ProbeCommand, ModeCommand, JoinCommand(ssid, password), WaitIpCommand] &&
              forall k :: 0 <= k < 5 ==> Answered(reply, r.calls, sessions, k)
  {
    AssociateFollowsPlan(Reset, ssid, password, reply, sessions);
    AttemptsStopAtFirstFailure(Plan(Reset, ssid, password), reply, sessions);
  }

  /** A failing mode-set ends the run in Error before the join is attempted. */
  lemma ModeFailureStopsBeforeJoin(ssid: CString, password: CString, reply: Oracle, sessions: seq<Session>)
    requires reply(ResetCommand, sessions) == Ok
    requires reply(ProbeCommand, Drop(sessions, 1)) == Ok
    requires reply(ModeCommand, Drop(sessions, 2)) != Ok
    ensures Associate(Reset, ssid, password, reply, sessions) == Run(State.Error, [ResetCommand, ProbeCommand, ModeCommand])
  {
    var rest := Drop(sessions, 1);
    assert Step(Reset, ssid, password, reply, sessions) == Run(Init, [ResetCommand]);
    assert Drop(rest, 1) == Drop(sessions, 2) by {
      DropDrop(sessions, 1, 1);
    }
    assert Step(Init, ssid, password, reply, rest) == Run(State.Error, [ProbeCommand, ModeCommand]);
    assert Associate(Init, ssid, password, reply, rest) == Run(State.Error, [ProbeCommand, ModeCommand]);
    AssociateUnfold(Reset, ssid, password, reply, sessions);
    assert [ResetCommand] + [ProbeCommand, ModeCommand] == [ResetCommand, ProbeCommand, ModeCommand];
  }

  /** esp_state persists between calls: Connected and Error issue no command
      and stay; any state the machine does not handle goes straight to Error. */
  lemma AssociateFromOtherStates(st: State, ssid: CString, password: CString, reply: Oracle, sessions: seq<Session>)
    requires st != Reset && st != Init && st != ConnectAp
    ensures Associate(st, ssid, password, reply, sessions) ==
            Run(if st == Connected then Connected else State.Error, [])
  {
  }

  /** How many passes of the switch the loop makes from `st`. */
  function Passes(st: State, ssid: CString, password: CString, reply: Oracle, sessions: seq<Session>): nat
    decreases Rank(st)
  {
    if Terminal(st) then 0
    else
      var first := Step(st, ssid, password, reply, sessions);
      1 + Passes(first.final, ssid, password, reply, Drop(sessions, |first.calls|))
  }

  /** The loop makes no pass from Connected or Error and at most three
      passes from any state: at most one from ConnectAp, two from Init and
      three from Reset. */
  lemma {:induction false} PassesBound(st: State, ssid: CString, password: CString, reply: Oracle, sessions: seq<Session>)
    ensures Passes(st, ssid, password, reply, sessions) <= Rank(st) <= 3
    ensures Passes(st, ssid, password, reply, sessions) == 0 <==> Terminal(st)
    decreases Rank(st)
  {
    if !Terminal(st) {
      var first := Step(st, ssid, password, reply, sessions);
      PassesBound(first.final, ssid, password, reply, Drop(sessions, |first.calls|));
    }
  }

  /** Credentials longer than 113 characters together lose the closing quote:
      the join command is cut at 127 characters. */
  lemma JoinTextCut(ssid: CString, password: CString)
    ensures |ssid| + |password| <= 113 ==> JoinText(ssid, password) == "AT+CWJAP=\"" + ssid + "\",\"" + password + "\""
    ensures |ssid| + |password| > 113 ==> |JoinText(ssid, password)| == 127
  {
  }
}

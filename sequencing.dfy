/**
 The pattern both state machines follow: issue a fixed list of executor
 calls in order and give up at the first status that is not Ok. This is the
 reference the association and HTTP specifications are proved against.
 */
module Sequencing {
  import opened Executor

  /** The executor as the state machines see it: the status a command gets
      when `sessions` are the scripted sessions still to come. Each call uses
      up one session. */
  type Oracle = (Command, seq<Session>) -> Status

  /** How many commands are issued: all of them, or up to and including the
      first that does not get Ok. */
  function Attempts(plan: seq<Command>, reply: Oracle, sessions: seq<Session>): (n: nat)
    ensures n <= |plan|
    ensures plan != [] ==> 1 <= n
  {
    if plan == [] then 0
    else if reply(plan[0], sessions) != Ok then 1
    else 1 + Attempts(plan[1..], reply, Drop(sessions, 1))
  }

  /** Every command of the plan got Ok. */
  predicate Completes(plan: seq<Command>, reply: Oracle, sessions: seq<Session>)
  {
    plan == [] || (reply(plan[0], sessions) == Ok && Completes(plan[1..], reply, Drop(sessions, 1)))
  }

  /** The k-th command issued got Ok, answered from the sessions left after
      the k before it. */
  ghost predicate Answered(reply: Oracle, plan: seq<Command>, sessions: seq<Session>, k: nat)
    requires k < |plan|
  {
    reply(plan[k], Drop(sessions, k)) == Ok
  }

  lemma DropDrop(sessions: seq<Session>, m: nat, n: nat)
    ensures Drop(Drop(sessions, m), n) == Drop(sessions, m + n)
  {
  }

  /** The calls made are exactly those up to the first failure: every one
      before the last got Ok, the last got Ok only when the whole plan did, and
      the plan completes exactly when every call was made and answered Ok. */
  lemma {:induction false} AttemptsStopAtFirstFailure(plan: seq<Command>, reply: Oracle, sessions: seq<Session>)
    ensures var n := Attempts(plan, reply, sessions);
            (forall k :: 0 <= k < n - 1 ==> Answered(reply, plan, sessions, k)) &&
            (Completes(plan, reply, sessions) <==> n == |plan| && forall k :: 0 <= k < n ==> Answered(reply, plan, sessions, k)) &&
            (!Completes(plan, reply, sessions) ==> !Answered(reply, plan, sessions, n - 1))
  {
    if plan != [] {
      assert Drop(sessions, 0) == sessions;
      assert Answered(reply, plan, sessions, 0) <==> reply(plan[0], sessions) == Ok;
      if reply(plan[0], sessions) == Ok {
        var rest := Drop(sessions, 1);
        var n := Attempts(plan, reply, sessions);
        AttemptsStopAtFirstFailure(plan[1..], reply, rest);
        forall k | 1 <= k < |plan|
          ensures Answered(reply, plan, sessions, k) <==> Answered(reply, plan[1..], rest, k - 1)
        {
          DropDrop(sessions, 1, k - 1);
        }
        if Completes(plan, reply, sessions) {
          assert forall k :: 0 <= k < n ==> Answered(reply, plan, sessions, k);
        }
        if n == |plan| && forall k :: 0 <= k < n ==> Answered(reply, plan, sessions, k) {
          forall k | 0 <= k < n - 1
            ensures Answered(reply, plan[1..], rest, k)
          {
            assert Answered(reply, plan, sessions, k + 1);
          }
        }
      }
    }
  }

  /** A plan of four commands, unrolled. */
  lemma AttemptsOfFour(a: Command, b: Command, c: Command, d: Command, reply: Oracle, sessions: seq<Session>)
    ensures var plan := [a, b, c, d];
            Attempts(plan, reply, sessions) ==
              (if reply(a, sessions) != Ok then 1
               else if reply(b, Drop(sessions, 1)) != Ok then 2
               else if reply(c, Drop(sessions, 2)) != Ok then 3
               else 4) &&
            (Completes(plan, reply, sessions) <==>
              reply(a, sessions) == Ok && reply(b, Drop(sessions, 1)) == Ok &&
              reply(c, Drop(sessions, 2)) == Ok && reply(d, Drop(sessions, 3)) == Ok)
  {
    var plan := [a, b, c, d];
    assert plan[1..] == [b, c, d] && plan[1..][1..] == [c, d] && plan[1..][1..][1..] == [d];
    DropDrop(sessions, 1, 1);
    DropDrop(sessions, 2, 1);
    DropDrop(sessions, 3, 1);
    var s1, s2, s3 := Drop(sessions, 1), Drop(sessions, 2), Drop(sessions, 3);
    assert Attempts([d], reply, s3) == 1;
    assert Completes([d], reply, s3) <==> reply(d, s3) == Ok;
    assert Attempts([c, d], reply, s2) == if reply(c, s2) != Ok then 1 else 1 + Attempts([d], reply, s3);
    assert Completes([c, d], reply, s2) <==> reply(c, s2) == Ok && Completes([d], reply, s3);
    assert Attempts([b, c, d], reply, s1) == if reply(b, s1) != Ok then 1 else 1 + Attempts([c, d], reply, s2);
    assert Completes([b, c, d], reply, s1) <==> reply(b, s1) == Ok && Completes([c, d], reply, s2);
  }
}

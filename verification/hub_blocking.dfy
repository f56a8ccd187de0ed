/**
  Senders that block for ever: a close command has no buffer and a full write channel has no room,
  so a send waits until the line's own goroutine takes it. If that goroutine has gone, the sender
  stays where it is and keeps its read lock (pkg/hub/hub.go, pkg/hub/user_lines.go).
 */
module HubBlocking {
  import opened HubState
  import opened HubProtocol
  import opened HubSchedules
  import opened HubSafety
  import opened HubVictims

  /** Each of these senders has passed its checks and stands at its send. */
  ghost predicate AtSend(s: State, blocked: set<nat>) {
    forall t | t in blocked :: t in s.senders && s.senders[t].Fetched?
  }

  /** Nobody takes what the blocked senders have to send. */
  predicate NeverTaken(steps: seq<Step>, blocked: set<nat>) {
    forall k | 0 <= k < |steps| :: steps[k].Send? ==> steps[k].sender !in blocked
  }

  /** A blocked sender reads the very list that the unregister handler waits to write. */
  ghost predicate Blocks(s: State, blocked: set<nat>) {
    s.closer.Loaded? && exists t :: t in blocked && t in s.senders && s.senders[t].obj == s.closer.obj
  }

  // ---------------------------------------------------------------- the handler waits

  lemma BlockedStep(s: State, t: nat, step: Step)
    requires s.closer.Loaded? && t in s.senders && s.senders[t].Fetched? && s.senders[t].obj == s.closer.obj
    requires step.Send? ==> step.sender != t
    ensures var s' := Do(s, step); s'.closer == s.closer && t in s'.senders && s'.senders[t] == s.senders[t]
  {
    assert !NoReader(s, s.closer.obj);
  }

  lemma {:induction false} BlockedRun(s: State, t: nat, steps: seq<Step>)
    requires s.closer.Loaded? && t in s.senders && s.senders[t].Fetched? && s.senders[t].obj == s.closer.obj
    requires NeverTaken(steps, {t})
    ensures Run(s, steps).closer == s.closer
    decreases |steps|
  {
    if steps != [] {
      BlockedStep(s, t, steps[0]);
      forall k | 0 <= k < |steps[1..]| && steps[1..][k].Send? ensures steps[1..][k].sender !in {t} {
        assert steps[1..][k] == steps[k + 1];
      }
      BlockedRun(Do(s, steps[0]), t, steps[1..]);
    }
  }

  // ---------------------------------------------------------------- the handler goes on

  lemma Appended(s: State, a: seq<Step>, b: seq<Step>, blocked: set<nat>)
    requires NeverTaken(a, blocked) && NeverTaken(b, blocked)
    ensures NeverTaken(a + b, blocked) && Run(s, a + b) == Run(Run(s, a), b)
  {
    RunAppend(s, a, b);
  }

  /** Every sender that is not blocked can leave. */
  lemma {:induction false} FreeSendersLeave(s: State, blocked: set<nat>) returns (steps: seq<Step>)
    requires AllSee(s)
    ensures NeverTaken(steps, blocked)
    ensures var s' := Run(s, steps);
      && s' == s.(senders := s'.senders, panicked := s'.panicked) && s'.senders.Keys <= blocked
      && (forall t | t in s'.senders :: t in s.senders && s'.senders[t] == s.senders[t])
    decreases |s.senders|
  {
    if s.senders.Keys <= blocked {
      return [];
    }
    var k :| k in s.senders.Keys && k !in blocked;
    assert Sees(s, s.senders[k]);
    var first := SenderLeaves(s, k);
    var q := Run(s, first);
    assert q.senders.Keys == s.senders.Keys - {k} && |q.senders.Keys| < |s.senders.Keys|;
    forall j | j in q.senders ensures Sees(q, q.senders[j]) {
      assert Sees(s, s.senders[j]);
    }
    var rest := FreeSendersLeave(q, blocked);
    steps := first + rest;
    Appended(s, first, rest, blocked);
  }

  lemma AdvanceGoesOn(s: State)
    requires !s.closer.Idle?
    requires s.closer.Loaded? ==> s.closer.obj < |s.objs| && NoReader(s, s.closer.obj)
    ensures Rank(DoAdvance(s).closer) < Rank(s.closer) && !DoAdvance(s).closer.Loaded?
  {
  }

  lemma HandlerAdvances(s: State) returns (steps: seq<Step>)
    requires s.closer.Loaded? ==> s.closer.obj < |s.objs| && NoReader(s, s.closer.obj)
    ensures Run(s, steps).closer.Idle? && forall k | 0 <= k < |steps| :: steps[k] == Advance
  {
    steps := [];
    var q := s;
    while !q.closer.Idle?
      invariant q == Run(s, steps) && forall k | 0 <= k < |steps| :: steps[k] == Advance
      invariant q.closer.Loaded? ==> q.closer.obj < |q.objs| && NoReader(q, q.closer.obj)
      decreases Rank(q.closer)
    {
      AdvanceGoesOn(q);
      RunAppend(s, steps, [Advance]);
      RunStep(q, Advance, []);
      steps, q := steps + [Advance], Do(q, Advance);
    }
  }

  // ---------------------------------------------------------------- the theorem

  /**
    The unregister handler can still finish, with the blocked senders where they are, if and only
    if none of them reads the list it waits to write. While one does, it never takes another
    line, whoever's it is.
   */
  lemma HandlerFinishesExactly(s: State, blocked: set<nat>)
    requires SafetyInv(s) && AtSend(s, blocked)
    ensures (exists steps :: NeverTaken(steps, blocked) && Run(s, steps).closer.Idle?) <==> !Blocks(s, blocked)
  {
    if Blocks(s, blocked) {
      var t :| t in blocked && t in s.senders && s.senders[t].obj == s.closer.obj;
      forall steps | NeverTaken(steps, blocked) ensures !Run(s, steps).closer.Idle? {
        BlockedRun(s, t, steps);
      }
    } else {
      SafeSendersSee(s);
      var leave := FreeSendersLeave(s, blocked);
      var q := Run(s, leave);
      assert q.closer == s.closer && q.objs == s.objs;
      if s.closer.Loaded? {
        forall t | t in q.senders ensures q.senders[t].Holding? || q.senders[t].obj != s.closer.obj {
          assert t in q.senders.Keys;
        }
      }
      var finish := HandlerAdvances(q);
      Appended(s, leave, finish, blocked);
      assert NeverTaken(leave + finish, blocked) && Run(s, leave + finish).closer.Idle?;
    }
  }

  /** The register handler is held up by the same senders: while one reads a user's list, no line of the user is added. */
  lemma BlockedListTakesNoLine(s: State, t: nat, l: LineRef)
    requires t in s.senders && s.senders[t].Fetched?
    requires l.user in s.users && s.users[l.user] == s.senders[t].obj
    ensures Do(s, Register(l)) == s
  {
    assert !NoReader(s, s.users[l.user]);
  }
}

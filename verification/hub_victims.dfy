/**
  Why the condition of module HubSafety is exact: once an entry is dropped in front of a sender
  that nothing shelters, the goroutines can go on, without another such drop, to a send on a
  closed channel (pkg/hub/hub.go, pkg/hub/user_lines.go).
 */
module HubVictims {
  import opened HubState
  import opened HubProtocol
  import opened HubSchedules
  import opened HubSafety

  // ---------------------------------------------------------------- schedules, step by step

  lemma {:induction false} AlwaysDropsSafelyAppend(s: State, a: seq<Step>, b: seq<Step>)
    requires AlwaysDropsSafely(s, a) && AlwaysDropsSafely(Run(s, a), b)
    ensures AlwaysDropsSafely(s, a + b)
    decreases |a|
  {
    if a == [] {
      assert a + b == b;
    } else {
      assert (a + b)[1..] == a[1..] + b;
      AlwaysDropsSafelyAppend(Do(s, a[0]), a[1..], b);
    }
  }

  /** A safe schedule that ends in q, and one more safe step. */
  lemma Extend(s: State, steps: seq<Step>, q: State, step: Step) returns (steps': seq<Step>, q': State)
    requires q == Run(s, steps) && AlwaysDropsSafely(s, steps) && DropsSafely(q, step)
    ensures q' == Do(q, step) == Run(s, steps') && AlwaysDropsSafely(s, steps') && steps' == steps + [step]
  {
    steps', q' := steps + [step], Do(q, step);
    RunAppend(s, steps, [step]);
    RunStep(q, step, []);
    assert [step][1..] == [];
    AlwaysDropsSafelyAppend(s, steps, [step]);
  }

  lemma OnlyDeletesDrop(s: State, step: Step)
    requires !step.Sweep? && (step.Advance? ==> !s.closer.ClearedBoth?)
    ensures DropsSafely(s, step)
  {
  }

  // ---------------------------------------------------------------- the victim

  /** The lines of a list are live: nobody closes them, but for the one that is about to be taken off this very list. */
  ghost predicate LinesLive(s: State, obj: nat, u: string)
    requires obj < |s.objs|
  {
    forall l | l in s.objs[obj].refs ::
      && l.user == u && l in s.registered
      && Chans(l) <= s.field && Chans(l) !! s.closed
      && (l !in s.left || (s.closer.Loaded? && s.closer.line == l && s.closer.obj == obj))
  }

  /** A sender on its way through a list that no entry leads to any more, and that the handler can still get past. */
  ghost predicate Victim(s: State, t: nat, u: string) {
    && t in s.senders && u !in s.users
    && var p := s.senders[t];
    && SenderOk(s.objs, p) && StillToVisit(s, p) && p.obj !in s.users.Values
    && LinesLive(s, p.obj, u)
    && (s.closer.Loaded? && s.closer.obj == p.obj ==>
          p.Holding? && Without(s.objs[p.obj].refs, s.closer.line.id) != [])
    && (!s.closer.Idle? ==> s.closer.line in s.left)
    && (s.closer.Loaded? ==> s.closer.obj < |s.objs|)
  }

  /** A sender that has found a channel still finds it. */
  ghost predicate Sees(s: State, p: Sender) {
    SenderOk(s.objs, p) && (p.Checked? ==> Chan(s.objs[p.obj].refs[p.i], p.kind) in s.field)
  }

  ghost predicate AllSee(s: State) {
    forall k | k in s.senders :: Sees(s, s.senders[k])
  }

  lemma SafeSendersSee(s: State)
    requires EntriesInv(s) && VisitorsInv(s) && OpenInv(s)
    ensures AllSee(s)
  {
    forall k | k in s.senders ensures Sees(s, s.senders[k]) {
      var p := s.senders[k];
      assert VisitorOk(s, p);
      if p.Checked? {
        VisitedLineIsOpen(s, p);
      }
    }
  }

  lemma EntryLinesLive(s: State, u: string)
    requires EntriesInv(s) && OpenInv(s) && u in s.users
    ensures LinesLive(s, s.users[u], u)
  {
    forall l | l in s.objs[s.users[u]].refs
      ensures l.user == u && l in s.registered
      ensures Chans(l) <= s.field && Chans(l) !! s.closed
      ensures l !in s.left || (s.closer.Loaded? && s.closer.line == l && s.closer.obj == s.users[u])
    {
      assert EntryLineOk(s, s.users[u], u, l);
      forall c | c in Chans(l) ensures c in s.field && c !in s.closed {
        assert Staying(s, c.line);
      }
    }
  }

  lemma DropsOneEntry(s: State, step: Step, u: string)
    requires u in s.users && u !in Do(s, step).users
    ensures var s' := Do(s, step);
      && s' == s.(users := s.users - {u}, closer := s'.closer)
      && (s'.closer == s.closer || (s'.closer.Idle? && !s.closer.Loaded?))
  {
  }

  /** An unsafe drop makes a victim. */
  lemma DropMakesVictim(s: State, step: Step, u: string, t: nat)
    requires SafetyInv(s) && u in s.users && u !in Do(s, step).users
    requires VisitorOf(s, t, s.users[u]) && !Sheltered(Do(s, step), s.senders[t])
    ensures Victim(Do(s, step), t, u) && AllSee(Do(s, step))
  {
    DropsOneEntry(s, step, u);
    SafeSendersSee(s);
    EntryLinesLive(s, u);
    assert VisitorOk(s, s.senders[t]);
    VictimWithoutEntry(s, Do(s, step), u, t);
    SeeingNeedsNoEntry(s, Do(s, step));
  }

  lemma SeeingNeedsNoEntry(s: State, s': State)
    requires AllSee(s) && s' == s.(users := s'.users, closer := s'.closer)
    ensures AllSee(s')
  {
    forall k | k in s'.senders ensures Sees(s', s'.senders[k]) {
      assert Sees(s, s.senders[k]);
    }
  }

  lemma VictimWithoutEntry(s: State, s': State, u: string, t: nat)
    requires EntriesInv(s) && OpenInv(s) && u in s.users && LinesLive(s, s.users[u], u)
    requires VisitorOf(s, t, s.users[u]) && SenderOk(s.objs, s.senders[t]) && !Sheltered(s', s.senders[t])
    requires s' == s.(users := s.users - {u}, closer := s'.closer)
    requires s'.closer == s.closer || (s'.closer.Idle? && !s.closer.Loaded?)
    ensures Victim(s', t, u)
  {
    forall v | v in s'.users ensures s'.users[v] != s.users[u] {
      assert v != u;
    }
  }

  // ---------------------------------------------------------------- the other senders leave

  function Left(s: State, p: Sender): nat
    requires SenderOk(s.objs, p)
  {
    var n := |s.objs[p.obj].refs|;
    match p
    case Holding(_, _) => 3 * n + 5
    case Reading(_, _, i) => 3 * (n - i) + 1
    case Checked(_, _, i) => 3 * (n - i)
    case Fetched(_, _, i, _) => 3 * (n - i) - 1
  }

  /** The next step of a sender that does not stop at any line. */
  function NextOf(s: State, k: nat): Step
    requires k in s.senders && s.senders[k].obj < |s.objs|
  {
    match s.senders[k]
    case Holding(_, _) => LockRead(k)
    case Reading(o, _, i) => if i < |s.objs[o].refs| then Skip(k) else UnlockRead(k)
    case Checked(_, _, _) => Fetch(k)
    case Fetched(_, _, _, _) => Send(k)
  }

  lemma NextOfIsOwn(s: State, k: nat)
    requires k in s.senders && Sees(s, s.senders[k])
    ensures IsSenderStep(NextOf(s, k)) && NextOf(s, k).sender == k
    ensures var s' := DoSender(s, NextOf(s, k));
      s' == s.(senders := s'.senders, panicked := s'.panicked) && s'.senders - {k} == s.senders - {k}
  {
  }

  lemma NextOfGoesOn(s: State, k: nat)
    requires k in s.senders && Sees(s, s.senders[k])
    ensures IsSenderStep(NextOf(s, k))
    ensures var s' := DoSender(s, NextOf(s, k));
      k in s'.senders ==> Sees(s', s'.senders[k]) && Left(s', s'.senders[k]) < Left(s, s.senders[k])
  {
  }

  lemma SenderAdvances(s: State, k: nat) returns (step: Step)
    requires k in s.senders && Sees(s, s.senders[k])
    ensures IsSenderStep(step) && step.sender == k
    ensures var s' := Do(s, step);
      && s' == s.(senders := s'.senders, panicked := s'.panicked) && s'.senders - {k} == s.senders - {k}
      && (k in s'.senders ==> Sees(s', s'.senders[k]) && Left(s', s'.senders[k]) < Left(s, s.senders[k]))
  {
    step := NextOf(s, k);
    NextOfIsOwn(s, k);
    NextOfGoesOn(s, k);
  }

  lemma SenderLeaves(s: State, k: nat) returns (steps: seq<Step>)
    requires k in s.senders && Sees(s, s.senders[k])
    ensures AlwaysDropsSafely(s, steps)
    ensures forall i | 0 <= i < |steps| :: IsSenderStep(steps[i]) && steps[i].sender == k
    ensures var s' := Run(s, steps); s' == s.(senders := s.senders - {k}, panicked := s'.panicked)
  {
    steps := [];
    var q := s;
    while k in q.senders
      invariant q == Run(s, steps) && AlwaysDropsSafely(s, steps)
      invariant forall i | 0 <= i < |steps| :: IsSenderStep(steps[i]) && steps[i].sender == k
      invariant q == s.(senders := q.senders, panicked := q.panicked) && q.senders - {k} == s.senders - {k}
      invariant k in q.senders ==> Sees(q, q.senders[k])
      decreases if k in q.senders then 1 + Left(q, q.senders[k]) else 0
    {
      var step := SenderAdvances(q, k);
      OnlyDeletesDrop(q, step);
      steps, q := Extend(s, steps, q, step);
    }
    assert q.senders == q.senders - {k};
  }

  lemma VictimAlone(s: State, s': State, t: nat, u: string, k: nat)
    requires Victim(s, t, u) && AllSee(s) && k != t
    requires s' == s.(senders := s.senders - {k}, panicked := s'.panicked)
    ensures Victim(s', t, u) && AllSee(s')
  {
    forall j | j in s'.senders ensures Sees(s', s'.senders[j]) {
      assert Sees(s, s.senders[j]);
    }
  }

  lemma {:induction false} OthersLeave(s: State, t: nat, u: string) returns (steps: seq<Step>)
    requires Victim(s, t, u) && AllSee(s)
    ensures AlwaysDropsSafely(s, steps)
    ensures Victim(Run(s, steps), t, u) && Run(s, steps).senders.Keys == {t}
    decreases |s.senders|
  {
    if s.senders.Keys == {t} {
      return [];
    }
    var k :| k in s.senders.Keys && k != t;
    var first := SenderLeaves(s, k);
    var q := Run(s, first);
    VictimAlone(s, q, t, u, k);
    assert q.senders.Keys == s.senders.Keys - {k};
    assert |q.senders.Keys| < |s.senders.Keys|;
    var rest := OthersLeave(q, t, u);
    steps := first + rest;
    RunAppend(s, first, rest);
    AlwaysDropsSafelyAppend(s, first, rest);
  }

  // ---------------------------------------------------------------- the handler finishes

  function Rank(c: Closer): nat {
    match c
    case Idle => 0
    case Loaded(_, _) => 7
    case Dropped(_, _) => 6
    case Counted(_, _) => 5
    case ClosedOne(_, _) => 4
    case ClosedBoth(_, _) => 3
    case ClearedOne(_, _) => 2
    case ClearedBoth(_, _) => 1
  }

  lemma RemovalLeavesVictim(s: State, t: nat, u: string)
    requires Victim(s, t, u) && s.senders.Keys == {t} && s.closer.Loaded?
    ensures var s' := DoAdvance(s); Victim(s', t, u) && s'.senders == s.senders && s'.closer.Dropped?
  {
    var p, o, l := s.senders[t], s.closer.obj, s.closer.line;
    assert NoReader(s, o);
    var s' := DoAdvance(s);
    WithoutDropsExactlyTheId(s.objs[o].refs, l.id);
    if p.obj != o {
      assert s'.objs[p.obj] == s.objs[p.obj];
    }
    forall m | m in s'.objs[p.obj].refs ensures m in s.objs[p.obj].refs && m !in s.left {
    }
  }

  lemma ClosingLeavesVictim(s: State, t: nat, u: string)
    requires Victim(s, t, u) && !s.closer.Idle? && !s.closer.Loaded? && !s.closer.ClearedBoth?
    ensures var s' := DoAdvance(s); Victim(s', t, u) && s'.senders == s.senders && Rank(s'.closer) < Rank(s.closer)
  {
    ClosingLeavesLists(s);
    var s' := DoAdvance(s);
    var obj := s.senders[t].obj;
    forall l | l in s'.objs[obj].refs
      ensures l in s.objs[obj].refs && l !in s.left && Chans(l) <= s'.field && Chans(l) !! s'.closed
    {
      OtherLinesStayOpen(s, l);
    }
  }

  lemma OtherLinesStayOpen(s: State, l: LineRef)
    requires !s.closer.Idle? && !s.closer.Loaded? && !s.closer.ClearedBoth? && s.closer.line != l
    requires Chans(l) <= s.field && Chans(l) !! s.closed
    ensures Chans(l) <= DoAdvance(s).field && Chans(l) !! DoAdvance(s).closed
  {
  }

  lemma FinishLeavesVictim(s: State, t: nat, u: string)
    requires Victim(s, t, u) && s.senders.Keys == {t} && s.closer.ClearedBoth?
    ensures var s' := DoAdvance(s); Victim(s', t, u) && s'.senders == s.senders && s'.closer.Idle?
    ensures DropsSafely(s, Advance)
  {
    var s' := DoAdvance(s);
    forall v | v in s'.users ensures s'.users[v] != s.senders[t].obj {
      assert s'.users[v] == s.users[v] && s.users[v] in s.users.Values;
    }
    forall v, k | v in s.users ensures !VisitorOf(s, k, s.users[v]) {
      assert s.users[v] in s.users.Values;
      assert k in s.senders ==> k in s.senders.Keys;
    }
  }

  lemma HandlerFinishes(s: State, t: nat, u: string) returns (steps: seq<Step>)
    requires Victim(s, t, u) && s.senders.Keys == {t}
    ensures AlwaysDropsSafely(s, steps)
    ensures var s' := Run(s, steps); Victim(s', t, u) && s'.senders == s.senders && s'.closer.Idle?
  {
    steps := [];
    var q := s;
    while !q.closer.Idle?
      invariant q == Run(s, steps) && AlwaysDropsSafely(s, steps)
      invariant Victim(q, t, u) && q.senders == s.senders
      decreases Rank(q.closer)
    {
      if q.closer.Loaded? {
        RemovalLeavesVictim(q, t, u);
        OnlyDeletesDrop(q, Advance);
      } else if q.closer.ClearedBoth? {
        FinishLeavesVictim(q, t, u);
      } else {
        ClosingLeavesVictim(q, t, u);
        OnlyDeletesDrop(q, Advance);
      }
      steps, q := Extend(s, steps, q, Advance);
    }
  }

  // ---------------------------------------------------------------- the victim gets its channel

  lemma VictimReads(s: State, t: nat, u: string)
    requires Victim(s, t, u) && !s.senders[t].Holding?
    ensures var p := s.senders[t]; var c := Chan(s.objs[p.obj].refs[p.i], p.kind); c in s.field && c !in s.closed
  {
    var p := s.senders[t];
    var l := s.objs[p.obj].refs[p.i];
    assert l in s.objs[p.obj].refs;
    assert p.kind == CloseChan || p.kind == WriteChan;
    assert Chan(l, p.kind) in Chans(l);
  }

  /** It is the same list that the sender goes on through. */
  lemma StaysVictim(s: State, s': State, t: nat, u: string)
    requires Victim(s, t, u) && s' == s.(senders := s'.senders) && s.closer.Idle?
    requires t in s'.senders && s'.senders[t].obj == s.senders[t].obj
    requires SenderOk(s'.objs, s'.senders[t]) && StillToVisit(s', s'.senders[t])
    ensures Victim(s', t, u)
  {
  }

  lemma VictimMoves(s: State, t: nat, u: string) returns (step: Step)
    requires Victim(s, t, u) && s.closer.Idle? && !s.senders[t].Fetched?
    ensures IsSenderStep(step)
    ensures var s' := Do(s, step);
      && s' == s.(senders := s'.senders) && s'.senders.Keys == s.senders.Keys && Victim(s', t, u)
      && Left(s', s'.senders[t]) < Left(s, s.senders[t])
  {
    var p := s.senders[t];
    if p.Holding? {
      step := LockRead(t);
    } else {
      VictimReads(s, t, u);
      step := if p.Reading? then Check(t) else Fetch(t);
    }
    StaysVictim(s, DoSender(s, step), t, u);
  }

  lemma VictimFetches(s: State, t: nat, u: string) returns (steps: seq<Step>)
    requires Victim(s, t, u) && s.closer.Idle? && s.senders.Keys == {t}
    ensures AlwaysDropsSafely(s, steps)
    ensures var s' := Run(s, steps);
      Victim(s', t, u) && s'.closer.Idle? && s'.senders.Keys == {t} && s'.senders[t].Fetched?
  {
    steps := [];
    var q := s;
    while !q.senders[t].Fetched?
      invariant q == Run(s, steps) && AlwaysDropsSafely(s, steps)
      invariant Victim(q, t, u) && q.closer.Idle? && q.senders.Keys == {t}
      decreases Left(q, q.senders[t])
    {
      var step := VictimMoves(q, t, u);
      OnlyDeletesDrop(q, step);
      steps, q := Extend(s, steps, q, step);
    }
  }

  // ---------------------------------------------------------------- the line leaves under it

  lemma FreshLine(registered: set<LineRef>, user: string) returns (l: LineRef)
    ensures l !in registered && l.user == user
  {
    var serials := set m | m in registered :: m.serial;
    var n := AboveAll(serials);
    l := LineRef(n, "", user, 0);
    assert l in registered ==> l.serial in serials;
  }

  lemma {:induction false} AboveAll(ns: set<nat>) returns (n: nat)
    ensures forall m | m in ns :: m < n
    decreases |ns|
  {
    if ns == {} {
      return 0;
    }
    var k :| k in ns;
    var n' := AboveAll(ns - {k});
    n := if n' > k then n' else k + 1;
    assert forall m | m in ns :: m == k || m in ns - {k};
  }

  /** A user without an entry gets a new list; a line of an old list then leaves through the new one. */
  lemma LeavesThroughNewList(s: State, b: LineRef) returns (c: LineRef)
    requires s.closer.Idle? && b.user !in s.users && b in s.registered && b !in s.left
    requires forall t | t in s.senders :: s.senders[t].obj < |s.objs|
    ensures Do(Do(s, Register(c)), BeginUnregister(b)).closer.Loaded?
    ensures var s' := Do(Do(Do(s, Register(c)), BeginUnregister(b)), Advance);
      && s'.closer == Dropped(b, |s.objs|) && |s'.objs| > |s.objs| && s'.senders == s.senders && s'.closed == s.closed
      && s'.field >= s.field
  {
    c := FreshLine(s.registered, b.user);
    var n := |s.objs|;
    var s1 := DoRegister(s, c);
    assert s1.users[b.user] == n && |s1.objs| == n + 1;
    var s2 := DoBegin(s1, b);
    assert s2.closer == Loaded(b, n);
    assert NoReader(s2, n);
  }

  lemma CloseUnderway(s: State)
    requires s.closer.Dropped?
    ensures Do(s, Advance).closer.Counted? && Do(Do(s, Advance), Advance).closer.ClosedOne?
  {
  }

  lemma SendPanics(s: State, t: nat)
    requires t in s.senders && s.senders[t].Fetched? && s.senders[t].obj < |s.objs| && s.senders[t].chan in s.closed
    ensures Do(s, Send(t)).panicked
  {
  }

  lemma AdvancesRun(s: State, a: Step, b: Step, t: nat) returns (steps: seq<Step>)
    requires a.Register? && b.BeginUnregister?
    requires Do(Do(s, a), b).closer.Loaded? && Do(Do(Do(s, a), b), Advance).closer.Dropped?
    ensures Run(s, steps) == Do(Do(Do(Do(Do(Do(Do(s, a), b), Advance), Advance), Advance), Advance), Send(t))
    ensures AlwaysDropsSafely(s, steps)
  {
    var q := s;
    steps := [];
    OnlyDeletesDrop(q, a);
    steps, q := Extend(s, steps, q, a);
    OnlyDeletesDrop(q, b);
    steps, q := Extend(s, steps, q, b);
    OnlyDeletesDrop(q, Advance);
    steps, q := Extend(s, steps, q, Advance);
    CloseUnderway(q);
    OnlyDeletesDrop(q, Advance);
    steps, q := Extend(s, steps, q, Advance);
    OnlyDeletesDrop(q, Advance);
    steps, q := Extend(s, steps, q, Advance);
    OnlyDeletesDrop(q, Advance);
    steps, q := Extend(s, steps, q, Advance);
    OnlyDeletesDrop(q, Send(t));
    steps, q := Extend(s, steps, q, Send(t));
  }

  /** The fetched line leaves through another list, and is closed under the sender. */
  lemma ClosedUnderVictim(s: State, t: nat, u: string) returns (steps: seq<Step>)
    requires Victim(s, t, u) && s.closer.Idle? && s.senders.Keys == {t} && s.senders[t].Fetched?
    ensures AlwaysDropsSafely(s, steps) && Run(s, steps).panicked
  {
    var p := s.senders[t];
    var b := s.objs[p.obj].refs[p.i];
    assert b in s.objs[p.obj].refs;
    assert p.chan in Chans(b) by {
      assert p.chan == Chan(b, p.kind) && (p.kind == CloseChan || p.kind == WriteChan);
    }
    assert forall k | k in s.senders :: k in s.senders.Keys;
    var c := LeavesThroughNewList(s, b);
    var s4 := Do(Do(Do(s, Register(c)), BeginUnregister(b)), Advance);
    var s5 := ClosingRuns(s4);
    SendPanics(s5, t);
    steps := AdvancesRun(s, Register(c), BeginUnregister(b), t);
  }

  // ---------------------------------------------------------------- the theorems

  lemma Then(s: State, a: seq<Step>, b: seq<Step>) returns (steps: seq<Step>)
    requires AlwaysDropsSafely(s, a) && AlwaysDropsSafely(Run(s, a), b)
    ensures AlwaysDropsSafely(s, steps) && Run(s, steps) == Run(Run(s, a), b)
  {
    steps := a + b;
    RunAppend(s, a, b);
    AlwaysDropsSafelyAppend(s, a, b);
  }

  /** From a victim on there is a safe schedule that ends in a panic. */
  lemma VictimPanics(s: State, t: nat, u: string) returns (steps: seq<Step>)
    requires Victim(s, t, u) && AllSee(s)
    ensures AlwaysDropsSafely(s, steps) && Run(s, steps).panicked
  {
    steps := OthersLeave(s, t, u);
    var finish := HandlerFinishes(Run(s, steps), t, u);
    steps := Then(s, steps, finish);
    var fetch := VictimFetches(Run(s, steps), t, u);
    steps := Then(s, steps, fetch);
    var close := ClosedUnderVictim(Run(s, steps), t, u);
    steps := Then(s, steps, close);
  }

  ghost predicate Sound(s: State) {
    !s.panicked && !s.stuck
  }

  /** Whatever happens from here on, short of an unsafe drop, nothing panics and nothing hangs on a nil channel. */
  ghost predicate StaysSound(s: State) {
    forall rest | AlwaysDropsSafely(s, rest) :: Sound(Run(s, rest))
  }

  lemma SafetyStaysSound(s: State)
    requires SafetyInv(s)
    ensures StaysSound(s)
  {
    forall rest | AlwaysDropsSafely(s, rest) ensures Sound(Run(s, rest)) {
      RunKeepsSafety(s, rest);
    }
  }

  /** The condition is exact for every step, the handler's deletes and the sweep's alike. */
  lemma DropIsSafeExactly(s: State, step: Step)
    requires SafetyInv(s)
    ensures DropsSafely(s, step) <==> StaysSound(Do(s, step))
  {
    if DropsSafely(s, step) {
      StepKeepsSafety(s, step);
      SafetyStaysSound(Do(s, step));
    } else {
      var u, t :| u in s.users && u !in Do(s, step).users && VisitorOf(s, t, s.users[u])
                  && !Sheltered(Do(s, step), s.senders[t]);
      DropMakesVictim(s, step, u, t);
      var rest := VictimPanics(Do(s, step), t, u);
      assert !Sound(Run(Do(s, step), rest));
    }
  }

  ghost predicate AlwaysStaysSound(s: State, steps: seq<Step>)
    decreases |steps|
  {
    StaysSound(s) && (steps == [] || AlwaysStaysSound(Do(s, steps[0]), steps[1..]))
  }

  lemma {:induction false} SafeExactlyFrom(s: State, steps: seq<Step>)
    requires SafetyInv(s)
    ensures AlwaysDropsSafely(s, steps) <==> AlwaysStaysSound(s, steps)
    decreases |steps|
  {
    SafetyStaysSound(s);
    if steps != [] {
      DropIsSafeExactly(s, steps[0]);
      if DropsSafely(s, steps[0]) {
        StepKeepsSafety(s, steps[0]);
        SafeExactlyFrom(Do(s, steps[0]), steps[1..]);
      }
    }
  }

  /**
    Channel safety, exactly: a schedule from the empty hub drops entries safely throughout if and
    only if after each of its steps nothing can panic or hang, unless a later drop is unsafe.
   */
  lemma ChannelsAreSafeExactly(steps: seq<Step>)
    ensures AlwaysDropsSafely(INITIAL, steps) <==> AlwaysStaysSound(INITIAL, steps)
  {
    SafeExactlyFrom(INITIAL, steps);
  }
}

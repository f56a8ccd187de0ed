/**
  Particular schedules of the hub: handlers that nothing interrupts, and the interleaving in which
  a foreign delete lets a push panic (pkg/hub/hub.go).
 */
module HubSchedules {
  import opened HubState
  import opened HubProtocol

  lemma {:induction false} RunAppend(s: State, a: seq<Step>, b: seq<Step>)
    ensures Run(s, a + b) == Run(Run(s, a), b)
    decreases |a|
  {
    if a == [] {
      assert a + b == b;
    } else {
      assert (a + b)[1..] == a[1..] + b;
      RunAppend(Do(s, a[0]), a[1..], b);
    }
  }

  lemma RunStep(s: State, step: Step, rest: seq<Step>)
    ensures Run(s, [step] + rest) == Run(Do(s, step), rest)
  {
    assert ([step] + rest)[1..] == rest;
  }

  /** The handler's five steps after the removal, where nothing else happens. */
  lemma ClosingRuns(s: State) returns (t: State)
    requires s.closer.Dropped? && Chans(s.closer.line) <= s.field && Chans(s.closer.line) !! s.closed
    ensures t == Do(Do(Do(s, Advance), Advance), Advance)
    ensures t == s.(connCount := s.connCount - 1, closed := s.closed + Chans(s.closer.line),
                    closer := ClosedBoth(s.closer.line, s.closer.obj))
  {
    var l := s.closer.line;
    t := Do(Do(Do(s, Advance), Advance), Advance);
    assert t.closed == s.closed + Chans(l);
  }

  lemma ClearingRuns(s: State) returns (t: State)
    requires s.closer.ClosedBoth?
    ensures t == Do(Do(s, Advance), Advance)
    ensures t == s.(field := s.field - Chans(s.closer.line), closer := ClearedBoth(s.closer.line, s.closer.obj))
  {
    t := Do(Do(s, Advance), Advance);
    assert t.field == s.field - Chans(s.closer.line);
  }

  lemma RunLiteral(s: State, a: Step, b: Step, c: Step, d: Step, e: Step)
    ensures Run(s, [a, b]) == Do(Do(s, a), b)
    ensures Run(s, [a, b, c]) == Do(Do(Do(s, a), b), c)
    ensures Run(s, [a, b, c, d]) == Do(Do(Do(Do(s, a), b), c), d)
    ensures Run(s, [a, b, c, d, e]) == Do(Do(Do(Do(Do(s, a), b), c), d), e)
  {
    var s1 := Do(s, a);
    var s2 := Do(s1, b);
    assert [a, b][1..] == [b] && [b][1..] == [];
    assert Run(s2, []) == s2;
    assert Run(s1, [b]) == s2;
    assert Run(s, [a, b]) == s2;
    RunAppend(s, [a, b], [c]);
    assert [a, b] + [c] == [a, b, c] && [c][1..] == [];
    assert Run(s, [a, b, c]) == Do(s2, c);
    RunAppend(s, [a, b, c], [d]);
    assert [a, b, c] + [d] == [a, b, c, d] && [d][1..] == [];
    assert Run(s, [a, b, c, d]) == Do(Do(s2, c), d);
    RunAppend(s, [a, b, c, d], [e]);
    assert [a, b, c, d] + [e] == [a, b, c, d, e] && [e][1..] == [];
  }

  // ---------------------------------------------------------------- uninterrupted handlers

  function Abs(s: State): Registry
    requires forall u | u in s.users :: s.users[u] < |s.objs|
  {
    Registry(map u | u in s.users :: s.objs[s.users[u]], s.connCount)
  }

  ghost predicate InBounds(s: State) {
    forall u | u in s.users :: s.users[u] < |s.objs|
  }

  lemma AbsUpdate(s: State, t: State, user: string, lines: Lines)
    requires InBounds(s) && InBounds(t)
    requires t.users.Keys == s.users.Keys + {user} && t.objs[t.users[user]] == lines
    requires forall u | u in s.users && u != user :: t.objs[t.users[u]] == s.objs[s.users[u]]
    ensures Abs(t).users == Abs(s).users[user := lines]
  {
    var m := Abs(s).users[user := lines];
    assert Abs(t).users.Keys == m.Keys;
    forall u | u in m.Keys ensures Abs(t).users[u] == m[u] {
    }
  }

  /** The register step is the whole register handler. */
  lemma RegisterStepIsHandler(s: State, l: LineRef)
    requires RegistryInv(s) && l !in s.registered
    requires l.user in s.users ==> NoReader(s, s.users[l.user])
    ensures InBounds(DoRegister(s, l)) && Abs(DoRegister(s, l)) == HubState.Register(Abs(s), l)
  {
    var t := DoRegister(s, l);
    var lines := Added(if l.user in s.users then s.objs[s.users[l.user]] else Lines([], 0), l);
    forall u | u in s.users && u != l.user
      ensures t.users[u] < |t.objs| && t.objs[t.users[u]] == s.objs[s.users[u]]
    {
      assert l.user in s.users ==> s.users[u] != s.users[l.user];
    }
    assert t.users.Keys == s.users.Keys + {l.user};
    AbsUpdate(s, t, l.user, lines);
  }

  lemma RemovalUpdatesOneList(s: State)
    requires RegistryInv(s) && CloserInv(s) && s.closer.Loaded? && NoReader(s, s.closer.obj)
    ensures var t := DoAdvance(s); var l := s.closer.line;
      && t.closer == Dropped(l, s.closer.obj) && t.connCount == s.connCount && t.users == s.users
      && |t.objs| == |s.objs| && InBounds(t)
      && Abs(t).users == Abs(s).users[l.user := Removed(Abs(s).users[l.user], l.id)]
  {
    var t := DoAdvance(s);
    var l := s.closer.line;
    forall u | u in s.users && u != l.user ensures t.objs[t.users[u]] == s.objs[s.users[u]] {
      assert s.users[u] != s.closer.obj;
    }
    assert t.users.Keys == s.users.Keys + {l.user};
    AbsUpdate(s, t, l.user, Removed(s.objs[s.closer.obj], l.id));
  }

  /** The six steps of the unregister handler after the removal. */
  const REST_OF_HANDLER: seq<Step> := [Advance, Advance, Advance] + ([Advance, Advance] + [Advance])

  lemma RestOfHandlerRuns(s: State)
    requires s.closer.Dropped? && Chans(s.closer.line) <= s.field && Chans(s.closer.line) !! s.closed
    requires s.closer.obj < |s.objs|
    ensures var t := Run(s, REST_OF_HANDLER); var u := s.closer.line.user;
      && t.closer.Idle? && t.connCount == s.connCount - 1 && t.objs == s.objs
      && t.users == if s.objs[s.closer.obj].count == 0 then s.users - {u} else s.users
  {
    var s3 := ClosingRuns(s);
    var s4 := ClearingRuns(s3);
    RunLiteral(s, Advance, Advance, Advance, Advance, Advance);
    RunLiteral(s3, Advance, Advance, Advance, Advance, Advance);
    RunStep(s4, Advance, []);
    RunAppend(s3, [Advance, Advance], [Advance]);
    RunAppend(s, [Advance, Advance, Advance], [Advance, Advance] + [Advance]);
  }

  lemma OpenBeforeRemoval(s: State)
    requires Inv(s) && s.closer.Loaded? && NoReader(s, s.closer.obj)
    ensures var t := DoAdvance(s);
      t.closer.Dropped? && Chans(t.closer.line) <= t.field && Chans(t.closer.line) !! t.closed && t.closer.obj < |t.objs|
  {
    var l := s.closer.line;
    assert forall c | c in Chans(l) :: c.line in s.active;
  }

  lemma TailOfHandler(r: Registry, l: LineRef, s: State, t: State)
    requires l.user in r.users && InBounds(s) && l.user in s.users
    requires Abs(s).users == r.users[l.user := Removed(r.users[l.user], l.id)] && s.connCount == r.connCount
    requires t.connCount == s.connCount - 1 && t.objs == s.objs
    requires t.users == if s.objs[s.users[l.user]].count == 0 then s.users - {l.user} else s.users
    ensures InBounds(t) && Abs(t) == HubState.Unregister(r, l)
  {
    var u := Removed(r.users[l.user], l.id);
    assert Abs(s).users[l.user] == u;
    assert Abs(s).users.Keys == s.users.Keys;
    if u.count == 0 {
      assert Abs(t).users.Keys == (r.users - {l.user}).Keys;
      assert forall v | v in t.users :: Abs(t).users[v] == Abs(s).users[v];
      assert Abs(t).users == r.users - {l.user};
    } else {
      assert Abs(t).users == Abs(s).users;
    }
  }

  lemma HandlerUnfolds(s: State, l: LineRef)
    ensures Run(s, [BeginUnregister(l)] + ([Advance] + REST_OF_HANDLER)) == Run(DoAdvance(DoBegin(s, l)), REST_OF_HANDLER)
  {
    RunStep(DoBegin(s, l), Advance, REST_OF_HANDLER);
    RunStep(s, BeginUnregister(l), [Advance] + REST_OF_HANDLER);
  }

  lemma BeginIsLoad(s: State, l: LineRef)
    requires Inv(s) && s.closer.Idle? && l in s.registered && l !in s.left
    ensures l.user in s.users && DoBegin(s, l) == s.(left := s.left + {l}, closer := Loaded(l, s.users[l.user]))
    ensures Inv(DoBegin(s, l))
  {
    BeginKeepsInv(s, l);
  }

  /** The steps of the unregister handler, when nothing comes between them, are the whole handler. */
  lemma UnregisterStepsAreHandler(s: State, l: LineRef)
    requires Inv(s) && s.closer.Idle? && l in s.registered && l !in s.left && NoReader(s, s.users[l.user])
    ensures var t := Run(s, [BeginUnregister(l)] + ([Advance] + REST_OF_HANDLER));
      InBounds(t) && t.closer.Idle? && Abs(t) == HubState.Unregister(Abs(s), l)
  {
    BeginIsLoad(s, l);
    var s1 := DoBegin(s, l);
    OpenBeforeRemoval(s1);
    RemovalUpdatesOneList(s1);
    RestOfHandlerRuns(DoAdvance(s1));
    TailOfHandler(Abs(s), l, DoAdvance(s1), Run(DoAdvance(s1), REST_OF_HANDLER));
    HandlerUnfolds(s, l);
  }

  // ---------------------------------------------------------------- a push that panics

  const A: LineRef := LineRef(1, "a", "u", 0)
  const B: LineRef := LineRef(2, "b", "u", 0)
  const C: LineRef := LineRef(3, "c", "u", 0)

  /** A line comes and goes, up to the last step of its handler. */
  const FIRST_LINE: seq<Step> :=
    [Register(A), BeginUnregister(A), Advance] + [Advance, Advance, Advance] + [Advance, Advance]

  /** The sweep deletes the user, a second line brings it back, and a sender gets ready to push to it. */
  const SECOND_LINE: seq<Step> :=
    [Sweep("u"), Register(B)] + [StartSender(0, "u", WriteChan), LockRead(0), Check(0), Fetch(0)]

  /** The delete drops the new entry, a third line makes another, and the second line unregisters there. */
  const THIRD_LINE: seq<Step> :=
    [Advance, Register(C), BeginUnregister(B)] + [Advance, Advance, Advance, Advance, Send(0)]

  lemma FirstLineStarts() returns (s: State)
    ensures s == Do(Do(Do(INITIAL, Register(A)), BeginUnregister(A)), Advance)
    ensures s == State(map["u" := 0], [Lines([], 0)], 1, {A}, {A}, {}, Chans(A), {}, Dropped(A, 0), map[], false, false)
  {
    var s1 := Do(INITIAL, Register(A));
    assert [] + [A] == [A];
    assert s1.objs == [Lines([A], 1)];
    assert s1.users == map["u" := 0];
    assert s1.registered == {A} && s1.active == {A} && s1.field == Chans(A);
    var s2 := Do(s1, BeginUnregister(A));
    assert s2.left == {A};
    s := Do(s2, Advance);
    assert Without([A], "a") == [];
    assert s.active == {};
  }

  lemma SecondLineStarts(s: State) returns (t: State)
    requires s == State(map["u" := 0], [Lines([], 0)], 0, {A}, {A}, {}, {}, Chans(A), ClearedBoth(A, 0), map[], false, false)
    ensures t == Do(Do(s, Sweep("u")), Register(B))
    ensures t == State(map["u" := 1], [Lines([], 0), Lines([B], 1)], 1, {A, B}, {A}, {B}, Chans(B), Chans(A),
                       ClearedBoth(A, 0), map[], false, false)
  {
    var s1 := Do(s, Sweep("u"));
    assert s1.users == map[];
    t := Do(s1, Register(B));
    assert [] + [B] == [B];
    assert t.objs == [Lines([], 0), Lines([B], 1)];
    assert t.users == map["u" := 1];
    assert t.registered == {A, B} && t.active == {B} && t.field == Chans(B);
  }

  lemma SenderGetsReady(s: State) returns (t: State)
    requires s.users == map["u" := 1] && s.objs == [Lines([], 0), Lines([B], 1)] && s.senders == map[]
    requires Chan(B, WriteChan) in s.field
    ensures t == Do(Do(Do(Do(s, StartSender(0, "u", WriteChan)), LockRead(0)), Check(0)), Fetch(0))
    ensures t == s.(senders := map[0 := Fetched(1, WriteChan, 0, Chan(B, WriteChan))])
  {
    var s1 := Do(s, StartSender(0, "u", WriteChan));
    assert s1.senders == map[0 := Holding(1, WriteChan)];
    var s2 := Do(s1, LockRead(0));
    assert s2.senders == map[0 := Reading(1, WriteChan, 0)];
    var s3 := Do(s2, Check(0));
    assert s3.senders == map[0 := Checked(1, WriteChan, 0)];
    t := Do(s3, Fetch(0));
    assert t.senders == map[0 := Fetched(1, WriteChan, 0, Chan(B, WriteChan))];
  }

  lemma ThirdLineStarts(s: State) returns (t: State)
    requires s == State(map["u" := 1], [Lines([], 0), Lines([B], 1)], 1, {A, B}, {A}, {B}, Chans(B), Chans(A),
                        ClearedBoth(A, 0), map[0 := Fetched(1, WriteChan, 0, Chan(B, WriteChan))], false, false)
    ensures t == Do(Do(Do(s, Advance), Register(C)), BeginUnregister(B))
    ensures t.closer == Loaded(B, 2) && t.objs == [Lines([], 0), Lines([B], 1), Lines([C], 1)]
    ensures t.field == Chans(B) + Chans(C) && t.closed == Chans(A) && t.senders == s.senders
  {
    var s1 := Do(s, Advance);
    assert s1.users == map[];
    var s2 := Do(s1, Register(C));
    assert [] + [C] == [C];
    assert s2.objs == [Lines([], 0), Lines([B], 1), Lines([C], 1)];
    assert s2.users == map["u" := 2];
    t := Do(s2, BeginUnregister(B));
  }

  lemma SecondLineCloses(s: State) returns (t: State)
    requires s.closer == Loaded(B, 2) && s.objs == [Lines([], 0), Lines([B], 1), Lines([C], 1)]
    requires s.field == Chans(B) + Chans(C) && s.closed == Chans(A)
    requires s.senders == map[0 := Fetched(1, WriteChan, 0, Chan(B, WriteChan))]
    ensures t == Do(Do(Do(Do(Do(s, Advance), Advance), Advance), Advance), Send(0))
    ensures t.panicked
  {
    var s1 := Do(s, Advance);
    assert s1.closer == Dropped(B, 2);
    var s2 := ClosingRuns(s1);
    assert |s2.objs| == 3;
    t := Do(s2, Send(0));
  }

  /**
    Without the condition a push can panic: the sweep deletes an emptied user between the close
    and the delete of its handler, a new line brings the user back, and the delete drops the new
    entry. The new line's unregistration then works on a third list, so it closes the channels
    without waiting for the sender that still reads the second one.
   */
  lemma ForeignDeleteCanPanic()
    ensures Run(INITIAL, FIRST_LINE + SECOND_LINE + THIRD_LINE).panicked
    ensures !AllDeleteOwnEntry(INITIAL, FIRST_LINE + SECOND_LINE + THIRD_LINE)
  {
    var s1 := FirstLineStarts();
    var s2 := ClosingRuns(s1);
    var s3 := ClearingRuns(s2);
    assert s3.field == {} && s3.closed == Chans(A);
    var t1 := SecondLineStarts(s3);
    var t2 := SenderGetsReady(t1);
    var u1 := ThirdLineStarts(t2);
    var u2 := SecondLineCloses(u1);
    ScheduleRuns(s1, s2, s3, t1, t2, u1, u2);
    var steps := FIRST_LINE + SECOND_LINE + THIRD_LINE;
    if AllDeleteOwnEntry(INITIAL, steps) {
      NoSendOnClosedChannel(steps);
    }
  }

  lemma ScheduleRuns(s1: State, s2: State, s3: State, t1: State, t2: State, u1: State, u2: State)
    requires s1 == Do(Do(Do(INITIAL, Register(A)), BeginUnregister(A)), Advance)
    requires s2 == Do(Do(Do(s1, Advance), Advance), Advance)
    requires s3 == Do(Do(s2, Advance), Advance)
    requires t1 == Do(Do(s3, Sweep("u")), Register(B))
    requires t2 == Do(Do(Do(Do(t1, StartSender(0, "u", WriteChan)), LockRead(0)), Check(0)), Fetch(0))
    requires u1 == Do(Do(Do(t2, Advance), Register(C)), BeginUnregister(B))
    requires u2 == Do(Do(Do(Do(Do(u1, Advance), Advance), Advance), Advance), Send(0))
    ensures Run(INITIAL, FIRST_LINE + SECOND_LINE + THIRD_LINE) == u2
  {
    RunLiteral(INITIAL, Register(A), BeginUnregister(A), Advance, Advance, Advance);
    RunLiteral(s1, Advance, Advance, Advance, Advance, Advance);
    RunLiteral(s2, Advance, Advance, Advance, Advance, Advance);
    RunAppend(INITIAL, [Register(A), BeginUnregister(A), Advance], [Advance, Advance, Advance]);
    RunAppend(INITIAL, [Register(A), BeginUnregister(A), Advance] + [Advance, Advance, Advance], [Advance, Advance]);
    RunLiteral(s3, Sweep("u"), Register(B), Advance, Advance, Advance);
    RunLiteral(t1, StartSender(0, "u", WriteChan), LockRead(0), Check(0), Fetch(0), Advance);
    RunAppend(s3, [Sweep("u"), Register(B)], [StartSender(0, "u", WriteChan), LockRead(0), Check(0), Fetch(0)]);
    RunLiteral(t2, Advance, Register(C), BeginUnregister(B), Advance, Advance);
    RunLiteral(u1, Advance, Advance, Advance, Advance, Send(0));
    RunAppend(t2, [Advance, Register(C), BeginUnregister(B)], [Advance, Advance, Advance, Advance, Send(0)]);
    RunAppend(INITIAL, FIRST_LINE, SECOND_LINE);
    RunAppend(INITIAL, FIRST_LINE + SECOND_LINE, THIRD_LINE);
  }
}

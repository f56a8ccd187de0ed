/**
  Channel safety of the hub for every interleaving in which no entry is dropped in front of a
  sender that nothing shelters (pkg/hub/hub.go, pkg/hub/user_lines.go). Module HubVictims shows
  that no weaker condition would do.
 */
module HubSafety {
  import opened HubState
  import opened HubProtocol

  /** The sender may still look at a line of the list it holds. */
  predicate StillToVisit(s: State, p: Sender)
    requires p.obj < |s.objs|
  {
    match p
    case Holding(o, _) => s.objs[o].refs != []
    case Reading(o, _, i) => i < |s.objs[o].refs|
    case _ => true
  }

  predicate VisitorOf(s: State, t: nat, obj: nat) {
    t in s.senders && s.senders[t].obj == obj < |s.objs| && StillToVisit(s, s.senders[t])
  }

  /**
    The unregister handler waits to write to the sender's list. It is kept out while the sender
    reads, and one that has not begun to read will find the list empty afterwards. Until then no
    other line can leave.
   */
  predicate Sheltered(s: State, p: Sender) {
    && p.obj < |s.objs| && s.closer.Loaded? && s.closer.obj == p.obj
    && (p.Holding? ==> Without(s.objs[p.obj].refs, s.closer.line.id) == [])
  }

  /** Every sender on its way through a list that loses its entry by this step is sheltered. */
  ghost predicate DropsSafely(s: State, step: Step) {
    forall u, t | u in s.users && u !in Do(s, step).users && VisitorOf(s, t, s.users[u]) ::
      Sheltered(Do(s, step), s.senders[t])
  }

  ghost predicate AlwaysDropsSafely(s: State, steps: seq<Step>)
    decreases |steps|
  {
    steps == [] || (DropsSafely(s, steps[0]) && AlwaysDropsSafely(Do(s, steps[0]), steps[1..]))
  }

  // ---------------------------------------------------------------- the invariant

  /** The line has not begun to leave, or the handler has only just looked its list up. */
  predicate Staying(s: State, l: LineRef) {
    l in s.registered && (l !in s.left || (s.closer.Loaded? && s.closer.line == l))
  }

  /** A line of a list that an entry points to. */
  ghost predicate EntryLineOk(s: State, o: nat, u: string, l: LineRef) {
    l.user == u && Staying(s, l) && (s.closer.Loaded? && s.closer.line == l ==> s.closer.obj == o)
  }

  ghost predicate EntriesInv(s: State) {
    && (forall u | u in s.users :: s.users[u] < |s.objs|)
    && (forall u, v | u in s.users && v in s.users && u != v :: s.users[u] != s.users[v])
    && (forall u, l | u in s.users && l in s.objs[s.users[u]].refs ::
          EntryLineOk(s, s.users[u], u, l))
  }

  ghost predicate LinesStay(s: State, obj: nat)
    requires obj < |s.objs|
  {
    forall l | l in s.objs[obj].refs :: Staying(s, l)
  }

  ghost predicate VisitorOk(s: State, p: Sender) {
    && SenderOk(s.objs, p)
    && (StillToVisit(s, p) ==> p.obj in s.users.Values || (Sheltered(s, p) && LinesStay(s, p.obj)))
  }

  ghost predicate VisitorsInv(s: State) {
    forall t | t in s.senders :: VisitorOk(s, s.senders[t])
  }

  ghost predicate OpenInv(s: State) {
    && s.left <= s.registered
    && (forall c: Chan | Staying(s, c.line) :: c in s.field && c !in s.closed)
    && (forall c: Chan | c in s.closed :: c.line in s.left)
    && !s.panicked && !s.stuck
    && match s.closer
       case Idle => true
       case Loaded(l, o) => l in s.left && o < |s.objs|
       case Dropped(l, _) => l in s.left && Chan(l, CloseChan) !in s.closed && Chan(l, WriteChan) !in s.closed
       case Counted(l, _) => l in s.left && Chan(l, CloseChan) !in s.closed && Chan(l, WriteChan) !in s.closed
       case ClosedOne(l, _) => l in s.left && Chan(l, WriteChan) !in s.closed
       case _ => s.closer.line in s.left
  }

  ghost predicate SafetyInv(s: State) {
    EntriesInv(s) && VisitorsInv(s) && OpenInv(s)
  }

  lemma VisitedLineIsOpen(s: State, p: Sender)
    requires EntriesInv(s) && OpenInv(s) && VisitorOk(s, p)
    requires !p.Holding? && p.i < |s.objs[p.obj].refs|
    ensures var c := Chan(s.objs[p.obj].refs[p.i], p.kind); c in s.field && c !in s.closed
  {
    var l := s.objs[p.obj].refs[p.i];
    assert l in s.objs[p.obj].refs;
    if p.obj in s.users.Values {
      var u :| u in s.users && s.users[u] == p.obj;
      assert EntryLineOk(s, s.users[u], u, l);
    }
    assert Staying(s, Chan(l, p.kind).line);
  }

  /** What one step of a sender leaves of it. */
  lemma SenderGoesOn(s: State, step: Step)
    requires EntriesInv(s) && OpenInv(s) && IsSenderStep(step)
    requires step.sender in s.senders && VisitorOk(s, s.senders[step.sender])
    ensures var s' := DoSender(s, step); var t := step.sender;
      && s' == s.(senders := s'.senders) && s'.senders - {t} == s.senders - {t}
      && (t in s'.senders ==> VisitorOk(s', s'.senders[t]))
  {
    var p := s.senders[step.sender];
    if !p.Holding? && p.i < |s.objs[p.obj].refs| {
      VisitedLineIsOpen(s, p);
    }
  }

  lemma SenderStepKeepsSafety(s: State, step: Step)
    requires SafetyInv(s) && IsSenderStep(step)
    ensures SafetyInv(DoSender(s, step))
  {
    var t := step.sender;
    if t in s.senders {
      SenderGoesOn(s, step);
      OtherSendersStay(s, DoSender(s, step), t);
    }
  }

  lemma OtherSendersStay(s: State, s': State, t: nat)
    requires SafetyInv(s) && s' == s.(senders := s'.senders) && s'.senders - {t} == s.senders - {t}
    requires t in s'.senders ==> VisitorOk(s', s'.senders[t])
    ensures SafetyInv(s')
  {
    forall k | k in s'.senders ensures VisitorOk(s', s'.senders[k]) {
      if k != t {
        assert k in s'.senders - {t} && (s'.senders - {t})[k] == s.senders[k];
        assert VisitorOk(s, s.senders[k]);
      }
    }
  }

  // ---------------------------------------------------------------- every step keeps it

  lemma RegisterKeepsSafety(s: State, l: LineRef)
    requires SafetyInv(s)
    ensures SafetyInv(DoRegister(s, l))
  {
    var s' := DoRegister(s, l);
    if s' != s {
      RegisterKeepsEntries(s, s', l);
      RegisterKeepsVisitors(s, s', l);
      RegisterKeepsOpen(s, s', l);
    }
  }

  lemma RegisterKeepsOpen(s: State, s': State, l: LineRef)
    requires OpenInv(s) && s' == DoRegister(s, l) != s
    ensures OpenInv(s')
  {
    forall c: Chan | Staying(s', c.line) ensures c in s'.field && c !in s'.closed {
      if c.line == l {
        assert c.kind == CloseChan || c.kind == WriteChan;
        assert c in Chans(l);
      } else {
        assert Staying(s, c.line);
      }
    }
  }

  lemma RegisterKeepsEntryLine(s: State, s': State, l: LineRef, u: string, m: LineRef)
    requires EntriesInv(s) && s' == DoRegister(s, l) != s && s.left <= s.registered
    requires s.closer.Loaded? ==> s.closer.line in s.left
    requires u in s'.users && s'.users[u] < |s'.objs| && m in s'.objs[s'.users[u]].refs
    ensures EntryLineOk(s', s'.users[u], u, m)
  {
    if u == l.user {
      if u !in s.users {
        assert m == l;
      } else if m != l {
        assert m in s.objs[s.users[u]].refs;
        assert EntryLineOk(s, s.users[u], u, m);
      }
    } else {
      assert s'.users[u] == s.users[u];
      assert s'.objs[s.users[u]] == s.objs[s.users[u]];
      assert EntryLineOk(s, s.users[u], u, m);
    }
  }

  lemma RegisterKeepsIndices(s: State, s': State, l: LineRef)
    requires EntriesInv(s) && s' == DoRegister(s, l) != s
    ensures forall u | u in s'.users :: s'.users[u] < |s'.objs|
    ensures forall u, v | u in s'.users && v in s'.users && u != v :: s'.users[u] != s'.users[v]
  {
  }

  lemma RegisterKeepsEntries(s: State, s': State, l: LineRef)
    requires EntriesInv(s) && OpenInv(s) && s' == DoRegister(s, l) != s
    ensures EntriesInv(s')
  {
    RegisterKeepsIndices(s, s', l);
    assert s.closer.Loaded? ==> s.closer.line in s.left;
    forall u, m | u in s'.users && m in s'.objs[s'.users[u]].refs
      ensures EntryLineOk(s', s'.users[u], u, m)
    {
      RegisterKeepsEntryLine(s, s', l, u, m);
    }
  }

  lemma RegisterKeepsVisitor(s: State, s': State, l: LineRef, p: Sender)
    requires EntriesInv(s) && VisitorOk(s, p) && s' == DoRegister(s, l) != s
    requires p.Holding? || l.user !in s.users || p.obj != s.users[l.user]
    ensures VisitorOk(s', p)
  {
    assert l.user in s'.users && s'.users[l.user] in s'.users.Values;
    if p.obj != s'.users[l.user] {
      assert s'.objs[p.obj] == s.objs[p.obj];
      if p.obj in s.users.Values {
        var u :| u in s.users && s.users[u] == p.obj;
        assert s'.users[u] == p.obj;
      }
    }
  }

  lemma RegisterKeepsVisitors(s: State, s': State, l: LineRef)
    requires EntriesInv(s) && VisitorsInv(s) && s' == DoRegister(s, l) != s
    ensures VisitorsInv(s')
  {
    forall t | t in s'.senders ensures VisitorOk(s', s'.senders[t]) {
      assert VisitorOk(s, s.senders[t]);
      RegisterKeepsVisitor(s, s', l, s.senders[t]);
    }
  }

  lemma BeginKeepsSafety(s: State, l: LineRef)
    requires SafetyInv(s)
    ensures SafetyInv(DoBegin(s, l))
  {
    var s' := DoBegin(s, l);
    assert EntriesInv(s');
    assert VisitorsInv(s');
    assert OpenInv(s');
  }

  lemma RemovalKeepsEntryLine(s: State, s': State, u: string, m: LineRef)
    requires EntriesInv(s) && s.closer.Loaded? && s.closer.obj < |s.objs| && s' == DoAdvance(s) != s
    requires u in s'.users && m in s'.objs[s'.users[u]].refs
    ensures EntryLineOk(s', s'.users[u], u, m)
  {
    var l, o := s.closer.line, s.closer.obj;
    WithoutDropsExactlyTheId(s.objs[o].refs, l.id);
    if s.users[u] != o {
      assert s'.objs[s.users[u]] == s.objs[s.users[u]];
    }
    assert m in s.objs[s.users[u]].refs;
    assert EntryLineOk(s, s.users[u], u, m);
  }

  lemma RemovalKeepsEntriesSafe(s: State)
    requires EntriesInv(s) && s.closer.Loaded? && s.closer.obj < |s.objs|
    ensures EntriesInv(DoAdvance(s))
  {
    var s' := DoAdvance(s);
    if s' != s {
      assert s'.users == s.users && |s'.objs| == |s.objs|;
      forall u, m | u in s'.users && m in s'.objs[s'.users[u]].refs
        ensures EntryLineOk(s', s'.users[u], u, m)
      {
        RemovalKeepsEntryLine(s, s', u, m);
      }
    }
  }

  lemma RemovalKeepsVisitor(s: State, s': State, p: Sender)
    requires EntriesInv(s) && VisitorOk(s, p) && s.closer.Loaded? && s.closer.obj < |s.objs|
    requires s' == DoAdvance(s) != s && (p.Holding? || p.obj != s.closer.obj)
    ensures VisitorOk(s', p)
  {
    var o := s.closer.obj;
    WithoutDropsExactlyTheId(s.objs[o].refs, s.closer.line.id);
    if p.obj != o {
      assert s'.objs[p.obj] == s.objs[p.obj];
    }
  }

  lemma RemovalKeepsVisitors(s: State)
    requires EntriesInv(s) && VisitorsInv(s) && s.closer.Loaded? && s.closer.obj < |s.objs|
    ensures VisitorsInv(DoAdvance(s))
  {
    var s' := DoAdvance(s);
    if s' != s {
      forall t | t in s'.senders ensures VisitorOk(s', s'.senders[t]) {
        assert VisitorOk(s, s.senders[t]);
        RemovalKeepsVisitor(s, s', s.senders[t]);
      }
    }
  }

  lemma RemovalKeepsSafety(s: State)
    requires SafetyInv(s) && s.closer.Loaded?
    ensures SafetyInv(DoAdvance(s))
  {
    RemovalKeepsEntriesSafe(s);
    RemovalKeepsVisitors(s);
    assert Staying(s, Chan(s.closer.line, CloseChan).line) && Staying(s, Chan(s.closer.line, WriteChan).line);
    assert OpenInv(DoAdvance(s));
  }

  lemma ClosingKeepsSafety(s: State)
    requires SafetyInv(s) && !s.closer.Idle? && !s.closer.Loaded? && !s.closer.ClearedBoth?
    ensures SafetyInv(DoAdvance(s))
  {
    ClosingLeavesLists(s);
    var s' := DoAdvance(s);
    assert EntriesInv(s');
    assert VisitorsInv(s');
    assert OpenInv(s');
  }

  /** Fewer entries, and whoever visits a dropped one is sheltered. */
  lemma DropKeepsSafety(s: State, s': State)
    requires SafetyInv(s)
    requires s' == s.(users := s'.users, closer := s'.closer)
    requires s'.closer == s.closer || (s'.closer.Idle? && !s.closer.Loaded?)
    requires forall u | u in s'.users :: u in s.users && s'.users[u] == s.users[u]
    requires forall u, t | u in s.users && u !in s'.users && VisitorOf(s, t, s.users[u]) :: Sheltered(s', s.senders[t])
    ensures SafetyInv(s')
  {
    assert EntriesInv(s');
    forall t | t in s'.senders ensures VisitorOk(s', s'.senders[t]) {
      var p := s.senders[t];
      assert VisitorOk(s, p);
      if StillToVisit(s, p) && p.obj in s.users.Values {
        var u :| u in s.users && s.users[u] == p.obj;
        assert VisitorOf(s, t, s.users[u]);
        if u in s'.users {
          assert s'.users[u] == p.obj;
        } else {
          EntryLinesStay(s, u);
        }
      }
    }
    assert OpenInv(s');
  }

  lemma EntryLinesStay(s: State, u: string)
    requires EntriesInv(s) && u in s.users
    ensures LinesStay(s, s.users[u])
  {
    forall l | l in s.objs[s.users[u]].refs ensures Staying(s, l) {
      assert EntryLineOk(s, s.users[u], u, l);
    }
  }

  lemma StartKeepsSafety(s: State, t: nat, u: string, kind: Kind)
    requires SafetyInv(s)
    ensures SafetyInv(Do(s, StartSender(t, u, kind)))
  {
    var s' := Do(s, StartSender(t, u, kind));
    if s' != s {
      assert s'.senders - {t} == s.senders - {t};
      OtherSendersStay(s, s', t);
    }
  }

  lemma StepKeepsSafety(s: State, step: Step)
    requires SafetyInv(s) && DropsSafely(s, step)
    ensures SafetyInv(Do(s, step))
  {
    match step
    case Register(l) => RegisterKeepsSafety(s, l);
    case BeginUnregister(l) => BeginKeepsSafety(s, l);
    case Advance =>
      if s.closer.Loaded? {
        RemovalKeepsSafety(s);
      } else if s.closer.ClearedBoth? {
        DropKeepsSafety(s, Do(s, step));
      } else if !s.closer.Idle? {
        ClosingKeepsSafety(s);
      }
    case Sweep(u) => DropKeepsSafety(s, Do(s, step));
    case StartSender(t, u, kind) => StartKeepsSafety(s, t, u, kind);
    case _ => SenderStepKeepsSafety(s, step);
  }

  lemma {:induction false} RunKeepsSafety(s: State, steps: seq<Step>)
    requires SafetyInv(s) && AlwaysDropsSafely(s, steps)
    ensures SafetyInv(Run(s, steps))
    decreases |steps|
  {
    if steps != [] {
      StepKeepsSafety(s, steps[0]);
      RunKeepsSafety(Do(s, steps[0]), steps[1..]);
    }
  }

  // ---------------------------------------------------------------- the theorems

  /**
    Channel safety: no push or close sends on a closed channel or hangs on a nil one, and no
    channel is closed twice, however the goroutines interleave and however many lines share an
    id, as long as no entry is dropped in front of a sender that nothing shelters.
   */
  lemma SafeDropsKeepSendsSafe(steps: seq<Step>)
    requires AlwaysDropsSafely(INITIAL, steps)
    ensures !Run(INITIAL, steps).panicked && !Run(INITIAL, steps).stuck
  {
    RunKeepsSafety(INITIAL, steps);
  }

  /** Deletes that meet their own entry, and every sweep, drop empty lists only. */
  lemma OwnDeletesDropSafely(s: State, step: Step)
    requires Inv(s) && DeletesOwnEntry(s, step)
    ensures DropsSafely(s, step)
  {
    forall u, t | u in s.users && u !in Do(s, step).users
      ensures !VisitorOf(s, t, s.users[u])
    {
      DroppedListIsEmpty(s, step, u);
      EmptyListHasNoVisitor(s, t, s.users[u]);
    }
  }

  lemma DroppedListIsEmpty(s: State, step: Step, u: string)
    requires RegistryInv(s) && DeletesOwnEntry(s, step) && u in s.users && u !in Do(s, step).users
    ensures s.users[u] < |s.objs| && s.objs[s.users[u]].refs == []
  {
    assert ListAgrees(s, u);
    DroppedCountIsZero(s, step, u);
    NobodyLeft(s, u);
  }

  lemma DroppedCountIsZero(s: State, step: Step, u: string)
    requires DeletesOwnEntry(s, step) && u in s.users && u !in Do(s, step).users
    ensures s.users[u] < |s.objs| && s.objs[s.users[u]].count == 0
  {
  }

  lemma EmptyListHasNoVisitor(s: State, t: nat, obj: nat)
    requires SenderInv(s) && obj < |s.objs| && s.objs[obj].refs == []
    ensures !VisitorOf(s, t, obj)
  {
    if t in s.senders {
      assert SenderOk(s.objs, s.senders[t]);
    }
  }

  lemma {:induction false} OwnDeletesAlwaysDropSafely(s: State, steps: seq<Step>)
    requires Inv(s) && AllDeleteOwnEntry(s, steps)
    ensures AlwaysDropsSafely(s, steps)
    decreases |steps|
  {
    if steps != [] {
      OwnDeletesDropSafely(s, steps[0]);
      StepKeepsInv(s, steps[0]);
      OwnDeletesAlwaysDropSafely(Do(s, steps[0]), steps[1..]);
    }
  }
}

/**
  The hub under arbitrary interleaving: one goroutine registers lines, one unregisters them step
  by step, one sweeps empty users, and any number of senders push to or close lines while they
  hold a read lock (pkg/hub/hub.go, pkg/hub/user_lines.go).

  Registering a line, deleting a user that is found empty, and one deletion of the sweep are
  single steps; everything else may be interrupted between any two accesses.
 */
module HubProtocol {
  import opened Wrappers
  import opened HubState

  datatype Kind = CloseChan | WriteChan

  /** A line gets one channel of each kind when it is registered. */
  datatype Chan = Chan(line: LineRef, kind: Kind)

  /** Where the unregister handler is; `obj` is the user's list it loaded at the start. */
  datatype Closer =
    | Idle
    | Loaded(line: LineRef, obj: nat)
    | Dropped(line: LineRef, obj: nat)
    | Counted(line: LineRef, obj: nat)
    | ClosedOne(line: LineRef, obj: nat)
    | ClosedBoth(line: LineRef, obj: nat)
    | ClearedOne(line: LineRef, obj: nat)
    | ClearedBoth(line: LineRef, obj: nat)

  /** A goroutine inside one of the push or close methods; from `Reading` on it holds the read lock. */
  datatype Sender =
    | Holding(obj: nat, kind: Kind)
    | Reading(obj: nat, kind: Kind, i: nat)
    | Checked(obj: nat, kind: Kind, i: nat)
    | Fetched(obj: nat, kind: Kind, i: nat, chan: Chan)

  datatype State = State(
    users: map<string, nat>,       // the registry: user -> index of the user's list in objs
    objs: seq<Lines>,              // every list ever made
    connCount: int,
    registered: set<LineRef>,
    left: set<LineRef>,            // lines whose unregistration has begun
    active: set<LineRef>,          // registered lines that no `remove` has been counted for
    field: set<Chan>,              // channels that are still in their line's field
    closed: set<Chan>,
    closer: Closer,
    senders: map<nat, Sender>,
    panicked: bool,                // a send on a closed channel, or a second close
    stuck: bool)                   // a send on a nil channel

  datatype Step =
    | Register(line: LineRef)
    | BeginUnregister(line: LineRef)
    | Advance                      // the next step of the unregister handler
    | Sweep(user: string)
    | StartSender(sender: nat, user: string, kind: Kind)
    | LockRead(sender: nat)
    | Skip(sender: nat)
    | Check(sender: nat)
    | Fetch(sender: nat)
    | Send(sender: nat)
    | UnlockRead(sender: nat)

  const INITIAL: State := State(map[], [], 0, {}, {}, {}, {}, {}, Idle, map[], false, false)

  function Chans(l: LineRef): set<Chan> {
    {Chan(l, CloseChan), Chan(l, WriteChan)}
  }

  predicate NoReader(s: State, obj: nat) {
    forall t | t in s.senders :: s.senders[t].Holding? || s.senders[t].obj != obj
  }

  function DoRegister(s: State, l: LineRef): State {
    if l in s.registered then s
    else
      var known := l.user in s.users;
      var o := if known then s.users[l.user] else |s.objs|;
      if known && (o >= |s.objs| || !NoReader(s, o)) then s
      else
        var objs := if known then s.objs[o := Added(s.objs[o], l)] else s.objs + [Added(Lines([], 0), l)];
        s.(users := s.users[l.user := o], objs := objs, connCount := s.connCount + 1,
           registered := s.registered + {l}, active := s.active + {l}, field := s.field + Chans(l))
  }

  function DoBegin(s: State, l: LineRef): State {
    if !s.closer.Idle? || l !in s.registered || l in s.left then s
    else if l.user !in s.users then s.(left := s.left + {l})
    else s.(left := s.left + {l}, closer := Loaded(l, s.users[l.user]))
  }

  /** Closing a channel that is in the field; a second close would panic. */
  function CloseChannel(s: State, c: Chan): State {
    if c !in s.field then s else s.(closed := s.closed + {c}, panicked := s.panicked || c in s.closed)
  }

  function DoAdvance(s: State): State {
    match s.closer
    case Idle => s
    case Loaded(l, o) =>
      if o < |s.objs| && NoReader(s, o)
      then s.(objs := s.objs[o := Removed(s.objs[o], l.id)], active := s.active - {l}, closer := Dropped(l, o))
      else s
    case Dropped(l, o) => s.(connCount := s.connCount - 1, closer := Counted(l, o))
    case Counted(l, o) => CloseChannel(s, Chan(l, CloseChan)).(closer := ClosedOne(l, o))
    case ClosedOne(l, o) => CloseChannel(s, Chan(l, WriteChan)).(closer := ClosedBoth(l, o))
    case ClosedBoth(l, o) => s.(field := s.field - {Chan(l, CloseChan)}, closer := ClearedOne(l, o))
    case ClearedOne(l, o) => s.(field := s.field - {Chan(l, WriteChan)}, closer := ClearedBoth(l, o))
    case ClearedBoth(l, o) =>
      s.(users := if o < |s.objs| && s.objs[o].count == 0 then s.users - {l.user} else s.users, closer := Idle)
  }

  function DoSender(s: State, step: Step): State
    requires step.LockRead? || step.Skip? || step.Check? || step.Fetch? || step.Send? || step.UnlockRead?
  {
    var t := step.sender;
    if t !in s.senders || s.senders[t].obj >= |s.objs| then s
    else
      var p := s.senders[t];
      var refs := s.objs[p.obj].refs;
      match step
      case LockRead(_) => if p.Holding? then s.(senders := s.senders[t := Reading(p.obj, p.kind, 0)]) else s
      case Skip(_) =>
        if p.Reading? && p.i < |refs| then s.(senders := s.senders[t := Reading(p.obj, p.kind, p.i + 1)]) else s
      case Check(_) =>
        if p.Reading? && p.i < |refs| then
          s.(senders := s.senders[t := if Chan(refs[p.i], p.kind) in s.field then Checked(p.obj, p.kind, p.i)
                                       else Reading(p.obj, p.kind, p.i + 1)])
        else s
      case Fetch(_) =>
        if p.Checked? && p.i < |refs| then
          var c := Chan(refs[p.i], p.kind);
          if c in s.field then s.(senders := s.senders[t := Fetched(p.obj, p.kind, p.i, c)])
          else s.(stuck := true)
        else s
      case Send(_) =>
        if p.Fetched? then
          s.(senders := s.senders[t := Reading(p.obj, p.kind, p.i + 1)], panicked := s.panicked || p.chan in s.closed)
        else s
      case UnlockRead(_) => if p.Reading? && p.i == |refs| then s.(senders := s.senders - {t}) else s
  }

  /**
    A sender goes through its list from front to back: it may pass a line that is not selected or
    has no channel, it takes the channel of any other and sends to it once, and it gives up the
    lock only behind the last line.
   */
  lemma SenderStepsExactly(s: State, t: nat)
    requires t in s.senders && SenderOk(s.objs, s.senders[t])
    ensures var p, n := s.senders[t], |s.objs[s.senders[t].obj].refs|;
      && DoSender(s, LockRead(t)) == (if p.Holding? then s.(senders := s.senders[t := Reading(p.obj, p.kind, 0)]) else s)
      && DoSender(s, UnlockRead(t)) == (if p.Reading? && p.i == n then s.(senders := s.senders - {t}) else s)
      && DoSender(s, Skip(t)) ==
         (if p.Reading? && p.i < n then s.(senders := s.senders[t := Reading(p.obj, p.kind, p.i + 1)]) else s)
      && (!(p.Reading? && p.i < n) ==> DoSender(s, Check(t)) == s)
      && (!p.Checked? ==> DoSender(s, Fetch(t)) == s)
      && DoSender(s, Send(t)) ==
         (if p.Fetched?
          then s.(senders := s.senders[t := Reading(p.obj, p.kind, p.i + 1)], panicked := s.panicked || p.chan in s.closed)
          else s)
  {
  }

  /** At a line it looks twice: once whether there is a channel, and once to take it. */
  lemma SenderLooksExactly(s: State, t: nat)
    requires t in s.senders && SenderOk(s.objs, s.senders[t])
    requires !s.senders[t].Holding? && s.senders[t].i < |s.objs[s.senders[t].obj].refs|
    ensures var p := s.senders[t]; var c := Chan(s.objs[p.obj].refs[p.i], p.kind);
      var next := if c in s.field then Checked(p.obj, p.kind, p.i) else Reading(p.obj, p.kind, p.i + 1);
      var taken := if c in s.field then s.(senders := s.senders[t := Fetched(p.obj, p.kind, p.i, c)]) else s.(stuck := true);
      && DoSender(s, Check(t)) == (if p.Reading? then s.(senders := s.senders[t := next]) else s)
      && DoSender(s, Fetch(t)) == (if p.Checked? then taken else s)
  {
  }

  /** The handler takes on one line at a time; the sweep drops an entry whose counter is zero; a sender starts with the user's list. */
  lemma OtherStepsExactly(s: State, l: LineRef, u: string, t: nat, kind: Kind)
    ensures Do(s, BeginUnregister(l)) ==
            if !s.closer.Idle? || l !in s.registered || l in s.left then s
            else if l.user in s.users then s.(left := s.left + {l}, closer := Loaded(l, s.users[l.user]))
            else s.(left := s.left + {l})
    ensures u in s.users && s.users[u] < |s.objs| ==>
      Do(s, Sweep(u)) == if s.objs[s.users[u]].count == 0 then s.(users := s.users - {u}) else s
    ensures Do(s, StartSender(t, u, kind)) ==
            if u in s.users && t !in s.senders then s.(senders := s.senders[t := Holding(s.users[u], kind)]) else s
  {
  }

  function Do(s: State, step: Step): State {
    match step
    case Register(l) => DoRegister(s, l)
    case BeginUnregister(l) => DoBegin(s, l)
    case Advance => DoAdvance(s)
    case Sweep(u) =>
      if u in s.users && s.users[u] < |s.objs| && s.objs[s.users[u]].count == 0
      then s.(users := s.users - {u}) else s
    case StartSender(t, u, kind) =>
      if u in s.users && t !in s.senders then s.(senders := s.senders[t := Holding(s.users[u], kind)]) else s
    case _ => DoSender(s, step)
  }

  function Run(s: State, steps: seq<Step>): State
    decreases |steps|
  {
    if steps == [] then s else Run(Do(s, steps[0]), steps[1..])
  }

  /**
    The delete at the end of the unregister handler looks at the list it loaded at the start but
    removes whatever the user's entry is by now. It is sound when the two are still the same.
   */
  predicate DeletesOwnEntry(s: State, step: Step) {
    step.Advance? && s.closer.ClearedBoth? ==>
      var u, o := s.closer.line.user, s.closer.obj;
      (o < |s.objs| && s.objs[o].count == 0 && u in s.users) ==> s.users[u] == o
  }

  ghost predicate AllDeleteOwnEntry(s: State, steps: seq<Step>)
    decreases |steps|
  {
    steps == [] || (DeletesOwnEntry(s, steps[0]) && AllDeleteOwnEntry(Do(s, steps[0]), steps[1..]))
  }

  // ---------------------------------------------------------------- the invariant

  function OfUser(lines: set<LineRef>, user: string): set<LineRef> {
    set l | l in lines && l.user == user
  }

  /** A user's list and counter against the user's lines that are active. */
  ghost predicate ListAgrees(s: State, user: string)
    requires user in s.users && s.users[user] < |s.objs|
  {
    var u := s.objs[s.users[user]];
    && u.count == |OfUser(s.active, user)|
    && NoRepeats(u.refs)
    && (forall l | l in u.refs :: l in s.active && l.user == user)
  }

  ghost predicate RegistryInv(s: State) {
    && (forall u | u in s.users :: s.users[u] < |s.objs| && ListAgrees(s, u))
    && (forall u, v | u in s.users && v in s.users && u != v :: s.users[u] != s.users[v])
    && (forall o | 0 <= o < |s.objs| && o !in s.users.Values :: s.objs[o].refs == [])
    && (forall l | l in s.active :: l.user in s.users && l in s.registered)
    && (forall l | l in s.registered && l !in s.left :: l in s.active)
  }

  /** An active line is missing from its list only when a registered line shares its user and id. */
  ghost predicate Listed(s: State) {
    forall l | l in s.active ::
      l.user in s.users && s.users[l.user] < |s.objs|
      && (l in s.objs[s.users[l.user]].refs
          || exists m :: m in s.registered && m != l && m.id == l.id && m.user == l.user)
  }

  ghost predicate ChannelInv(s: State) {
    && (forall c: Chan | c.line in s.active :: c in s.field && c !in s.closed)
    && (forall c | c in s.closed :: c.line in s.registered)
    && !s.panicked && !s.stuck
  }

  ghost predicate CloserInv(s: State) {
    && s.connCount == |s.active| + (if s.closer.Dropped? then 1 else 0)
    && s.left <= s.registered
    && (forall l | l in s.active && l in s.left :: s.closer.Loaded? && s.closer.line == l)
    && match s.closer
       case Idle => true
       case Loaded(l, o) => l in s.active && l in s.left && l.user in s.users && s.users[l.user] == o
       case _ =>
         && s.closer.line !in s.active && s.closer.line in s.registered && s.closer.line in s.left
         && s.closer.obj < |s.objs|
         && (s.closer.Dropped? || s.closer.Counted? ==> Chan(s.closer.line, CloseChan) !in s.closed)
         && (s.closer.Dropped? || s.closer.Counted? || s.closer.ClosedOne? ==> Chan(s.closer.line, WriteChan) !in s.closed)
  }

  /** Only the handler that has just emptied a list leaves an empty user behind, and not for long. */
  ghost predicate EntryInv(s: State) {
    forall u | u in s.users ::
      OfUser(s.active, u) != {}
      || (!s.closer.Idle? && !s.closer.Loaded? && s.closer.line.user == u && s.closer.obj == s.users[u])
  }

  ghost predicate SenderOk(objs: seq<Lines>, p: Sender) {
    && p.obj < |objs|
    && (p.Reading? ==> p.i <= |objs[p.obj].refs|)
    && (p.Checked? || p.Fetched? ==> p.i < |objs[p.obj].refs|)
    && (p.Fetched? ==> p.chan == Chan(objs[p.obj].refs[p.i], p.kind))
  }

  ghost predicate SenderInv(s: State) {
    forall t | t in s.senders :: SenderOk(s.objs, s.senders[t])
  }

  ghost predicate Inv(s: State) {
    RegistryInv(s) && Listed(s) && ChannelInv(s) && CloserInv(s) && EntryInv(s) && SenderInv(s)
  }

  lemma ListedLineIsActive(s: State, o: nat, i: nat)
    requires RegistryInv(s) && o < |s.objs| && i < |s.objs[o].refs|
    ensures s.objs[o].refs[i] in s.active
  {
    var l := s.objs[o].refs[i];
    assert s.objs[o].refs != [];
    assert o in s.users.Values;
    var u :| u in s.users && s.users[u] == o;
    assert ListAgrees(s, u);
    assert l in s.objs[o].refs;
  }

  /** The line a sender looks at has both channels open, and still in their fields. */
  lemma SendersLineIsOpen(s: State, p: Sender)
    requires RegistryInv(s) && ChannelInv(s) && SenderOk(s.objs, p)
    requires !p.Holding? && p.i < |s.objs[p.obj].refs|
    ensures var c := Chan(s.objs[p.obj].refs[p.i], p.kind); c in s.field && c !in s.closed
  {
    ListedLineIsActive(s, p.obj, p.i);
  }

  predicate IsSenderStep(step: Step) {
    step.LockRead? || step.Skip? || step.Check? || step.Fetch? || step.Send? || step.UnlockRead?
  }

  lemma SenderStepKeepsSenders(s: State, step: Step)
    requires RegistryInv(s) && ChannelInv(s) && SenderInv(s) && IsSenderStep(step)
    ensures var s' := DoSender(s, step); s' == s.(senders := s'.senders) && SenderInv(s')
  {
    var t := step.sender;
    if t in s.senders {
      assert SenderOk(s.objs, s.senders[t]);
      var p := s.senders[t];
      if !p.Holding? && p.i < |s.objs[p.obj].refs| {
        SendersLineIsOpen(s, p);
      }
    }
  }

  /** Nothing but the senders differs. */
  lemma SameRegistry(s: State, s': State)
    requires Inv(s) && SenderInv(s')
    requires s' == s.(senders := s'.senders)
    ensures Inv(s')
  {
    assert RegistryInv(s') by {
      forall u | u in s'.users ensures s'.users[u] < |s'.objs| && ListAgrees(s', u) {
        assert ListAgrees(s, u);
      }
    }
  }

  // ---------------------------------------------------------------- register

  lemma OfUserAdd(lines: set<LineRef>, l: LineRef, user: string)
    requires l !in lines
    ensures OfUser(lines + {l}, user) == if l.user == user then OfUser(lines, user) + {l} else OfUser(lines, user)
    ensures |OfUser(lines + {l}, user)| == |OfUser(lines, user)| + (if l.user == user then 1 else 0)
  {
    assert OfUser(lines + {l}, user) == if l.user == user then OfUser(lines, user) + {l} else OfUser(lines, user);
  }

  lemma OfUserDrop(lines: set<LineRef>, l: LineRef, user: string)
    requires l in lines
    ensures OfUser(lines - {l}, user) == OfUser(lines, user) - {l}
    ensures |OfUser(lines - {l}, user)| == |OfUser(lines, user)| - (if l.user == user then 1 else 0)
  {
    OfUserAdd(lines - {l}, l, user);
    assert lines - {l} + {l} == lines;
  }

  lemma RegisterAppends(s: State, s': State, l: LineRef)
    requires RegistryInv(s) && s' == DoRegister(s, l) != s
    ensures l.user in s'.users && s'.users[l.user] < |s'.objs| && ListAgrees(s', l.user)
  {
    var u := l.user;
    assert l !in s.active;
    OfUserAdd(s.active, l, u);
    if u in s.users {
      assert ListAgrees(s, u);
      AppendKeepsNoRepeats(s.objs[s.users[u]].refs, l);
    } else {
      assert OfUser(s.active, u) == {};
      AppendKeepsNoRepeats([], l);
    }
  }

  lemma AppendKeepsNoRepeats(refs: seq<LineRef>, l: LineRef)
    requires NoRepeats(refs) && l !in refs
    ensures NoRepeats(refs + [l]) && forall m :: m in refs + [l] <==> m == l || m in refs
  {
  }

  lemma RegisterKeepsList(s: State, s': State, l: LineRef, u: string)
    requires RegistryInv(s) && s' == DoRegister(s, l) != s
    requires u in s'.users
    ensures s'.users[u] < |s'.objs| && ListAgrees(s', u)
  {
    if u == l.user {
      RegisterAppends(s, s', l);
    } else {
      assert l !in s.active;
      OfUserAdd(s.active, l, u);
      assert ListAgrees(s, u);
      assert s'.objs[s'.users[u]] == s.objs[s.users[u]];
    }
  }

  lemma RegisterKeepsUnused(s: State, s': State, l: LineRef, q: nat)
    requires RegistryInv(s) && s' == DoRegister(s, l) != s
    requires q < |s'.objs| && q !in s'.users.Values
    ensures s'.objs[q].refs == []
  {
    assert l.user in s'.users && s'.users[l.user] in s'.users.Values;
    assert forall u | u in s.users :: s'.users[u] == s.users[u];
    assert q !in s.users.Values;
  }

  lemma RegisterKeepsRegistry(s: State, l: LineRef)
    requires RegistryInv(s)
    ensures RegistryInv(DoRegister(s, l))
  {
    var s' := DoRegister(s, l);
    if s' != s {
      forall u | u in s'.users ensures s'.users[u] < |s'.objs| && ListAgrees(s', u) {
        RegisterKeepsList(s, s', l, u);
      }
      forall q | 0 <= q < |s'.objs| && q !in s'.users.Values ensures s'.objs[q].refs == [] {
        RegisterKeepsUnused(s, s', l, q);
      }
    }
  }

  lemma RegisterKeepsListed(s: State, l: LineRef)
    requires RegistryInv(s) && Listed(s)
    ensures Listed(DoRegister(s, l))
  {
    var s' := DoRegister(s, l);
    if s' != s {
      forall m | m in s'.active
        ensures m.user in s'.users && s'.users[m.user] < |s'.objs|
        ensures m in s'.objs[s'.users[m.user]].refs
                || exists n :: n in s'.registered && n != m && n.id == m.id && n.user == m.user
      {
        var refs := s'.objs[s'.users[m.user]].refs;
        if m == l {
          assert refs[|refs| - 1] == l;
        } else {
          assert m in s.active;
          var prior := s.objs[s.users[m.user]].refs;
          if m in prior {
            assert prior <= refs;
          } else {
            var n :| n in s.registered && n != m && n.id == m.id && n.user == m.user;
            assert n in s'.registered;
          }
        }
      }
    }
  }

  lemma RegisterKeepsChannels(s: State, l: LineRef)
    requires RegistryInv(s) && ChannelInv(s)
    ensures ChannelInv(DoRegister(s, l))
  {
    var s' := DoRegister(s, l);
    forall c: Chan | s' != s && c.line in s'.active ensures c in s'.field && c !in s'.closed {
      if c.line == l {
        assert c.kind.CloseChan? || c.kind.WriteChan?;
        assert c in Chans(l);
      }
    }
  }

  lemma RegisterKeepsSenders(s: State, l: LineRef)
    requires RegistryInv(s) && SenderInv(s)
    ensures SenderInv(DoRegister(s, l))
  {
    var s' := DoRegister(s, l);
    forall t | s' != s && t in s'.senders ensures SenderOk(s'.objs, s'.senders[t]) {
      assert SenderOk(s.objs, s.senders[t]);
    }
  }

  lemma RegisterKeepsCloser(s: State, l: LineRef)
    requires RegistryInv(s) && CloserInv(s)
    ensures CloserInv(DoRegister(s, l))
  {
    var s' := DoRegister(s, l);
    if s' != s {
      RegisterLeavesCloser(s, s', l);
      if s.closer.Loaded? {
        assert s'.users[s.closer.line.user] == s.users[s.closer.line.user];
      }
    }
  }

  lemma RegisterLeavesCloser(s: State, s': State, l: LineRef)
    requires RegistryInv(s) && s' == DoRegister(s, l) != s
    ensures l !in s.registered && l !in s.active && |s'.active| == |s.active| + 1
    ensures s'.closer == s.closer && s'.left == s.left && s'.closed == s.closed && s'.connCount == s.connCount + 1
    ensures s'.active == s.active + {l} && s'.registered == s.registered + {l} && |s'.objs| >= |s.objs|
  {
  }

  lemma RegisterKeepsEntries(s: State, l: LineRef)
    requires RegistryInv(s) && EntryInv(s)
    ensures EntryInv(DoRegister(s, l))
  {
    var s' := DoRegister(s, l);
    if s' != s {
      forall u | u in s.users && u != l.user ensures OfUser(s'.active, u) == OfUser(s.active, u) {
        OfUserAdd(s.active, l, u);
      }
      assert l in OfUser(s'.active, l.user);
    }
  }

  // ---------------------------------------------------------------- unregister

  lemma RemovalKeepsList(s: State, s': State, l: LineRef, u: string)
    requires RegistryInv(s) && s.closer.Loaded? && s.closer.line == l && s' == DoAdvance(s) != s
    requires l in s.active && l.user in s.users && s.users[l.user] == s.closer.obj
    requires u in s'.users
    ensures s'.users[u] < |s'.objs| && ListAgrees(s', u)
  {
    assert ListAgrees(s, u);
    OfUserDrop(s.active, l, u);
    if u == l.user {
      var refs := s.objs[s.users[u]].refs;
      WithoutDropsExactlyTheId(refs, l.id);
      WithoutKeepsNoRepeats(refs, l.id);
    } else {
      assert s.users[u] != s.closer.obj;
    }
  }

  lemma RemovalKeepsRegistry(s: State, l: LineRef)
    requires RegistryInv(s) && s.closer.Loaded? && s.closer.line == l
    requires l in s.active && l in s.left && l.user in s.users && s.users[l.user] == s.closer.obj
    ensures RegistryInv(DoAdvance(s))
  {
    var s' := DoAdvance(s);
    if s' != s {
      forall u | u in s'.users ensures s'.users[u] < |s'.objs| && ListAgrees(s', u) {
        RemovalKeepsList(s, s', l, u);
      }
      assert s.closer.obj in s.users.Values;
    }
  }

  lemma RemovalKeepsListed(s: State, l: LineRef)
    requires RegistryInv(s) && Listed(s) && s.closer.Loaded? && s.closer.line == l
    requires l in s.active && l.user in s.users && s.users[l.user] == s.closer.obj
    ensures Listed(DoAdvance(s))
  {
    var s' := DoAdvance(s);
    if s' != s {
      forall m | m in s'.active
        ensures m in s'.objs[s'.users[m.user]].refs
                || exists n :: n in s'.registered && n != m && n.id == m.id && n.user == m.user
      {
        WithoutDropsExactlyTheId(s.objs[s.closer.obj].refs, l.id);
        if m.user == l.user && m.id == l.id {
          assert l in s'.registered;
        } else if m.user != l.user {
          assert s.users[m.user] != s.closer.obj;
        }
      }
    }
  }

  lemma RemovalKeepsSenders(s: State)
    requires RegistryInv(s) && SenderInv(s) && s.closer.Loaded?
    ensures SenderInv(DoAdvance(s))
  {
    var s' := DoAdvance(s);
    forall t | s' != s && t in s'.senders ensures SenderOk(s'.objs, s'.senders[t]) {
      assert SenderOk(s.objs, s.senders[t]);
    }
  }

  lemma RemovalKeepsCloser(s: State)
    requires RegistryInv(s) && ChannelInv(s) && CloserInv(s) && EntryInv(s) && s.closer.Loaded?
    ensures ChannelInv(DoAdvance(s)) && CloserInv(DoAdvance(s)) && EntryInv(DoAdvance(s))
  {
    var s' := DoAdvance(s);
    var l := s.closer.line;
    if s' != s {
      forall u | u in s'.users && u != l.user ensures OfUser(s'.active, u) != {} {
        OfUserDrop(s.active, l, u);
      }
    }
  }

  /** The lists, the active lines and the entries are what they were. */
  lemma SameLists(s: State, s': State)
    requires RegistryInv(s) && Listed(s)
    requires s'.users == s.users && s'.objs == s.objs && s'.active == s.active
    requires s'.registered == s.registered && s.left <= s'.left
    ensures RegistryInv(s') && Listed(s')
  {
    forall u | u in s'.users ensures s'.users[u] < |s'.objs| && ListAgrees(s', u) {
      assert ListAgrees(s, u);
    }
    forall m | m in s'.active
      ensures m in s'.objs[s'.users[m.user]].refs
              || exists n :: n in s'.registered && n != m && n.id == m.id && n.user == m.user
    {
    }
  }

  lemma ClosingKeepsChannels(s: State)
    requires RegistryInv(s) && ChannelInv(s) && CloserInv(s)
    requires !s.closer.Idle? && !s.closer.Loaded? && !s.closer.ClearedBoth?
    ensures ChannelInv(DoAdvance(s))
  {
  }

  lemma ClosingKeepsCloser(s: State)
    requires RegistryInv(s) && ChannelInv(s) && CloserInv(s)
    requires !s.closer.Idle? && !s.closer.Loaded? && !s.closer.ClearedBoth?
    ensures CloserInv(DoAdvance(s))
  {
  }

  lemma SomeoneListed(s: State, u: string)
    requires RegistryInv(s) && u in s.users && s.objs[s.users[u]].refs != []
    ensures OfUser(s.active, u) != {}
  {
    assert ListAgrees(s, u);
    var l := s.objs[s.users[u]].refs[0];
    assert l in s.objs[s.users[u]].refs;
    assert l in OfUser(s.active, u);
  }

  lemma NobodyLeft(s: State, u: string)
    requires RegistryInv(s) && u in s.users && OfUser(s.active, u) == {}
    ensures s.objs[s.users[u]].refs == [] && forall l | l in s.active :: l.user != u
  {
    forall l | l in s.active ensures l.user != u {
      assert l.user == u ==> l in OfUser(s.active, u);
    }
    if s.objs[s.users[u]].refs != [] {
      SomeoneListed(s, u);
    }
  }

  lemma DeletionKeepsUnused(s: State, s': State, u: string)
    requires RegistryInv(s) && u in s.users && s.users[u] < |s.objs| && s.objs[s.users[u]].refs == []
    requires s'.users == s.users - {u} && s'.objs == s.objs
    ensures forall o | 0 <= o < |s'.objs| && o !in s'.users.Values :: s'.objs[o].refs == []
  {
    forall o | 0 <= o < |s'.objs| && o !in s'.users.Values ensures s'.objs[o].refs == [] {
      if o != s.users[u] {
        forall v | v in s.users ensures s.users[v] != o {
          assert v == u || s'.users[v] in s'.users.Values;
        }
        assert o !in s.users.Values;
      }
    }
  }

  lemma DeletionKeepsListed(s: State, s': State, u: string)
    requires Listed(s) && forall l | l in s.active :: l.user != u
    requires s' == s.(users := s.users - {u}, closer := s'.closer)
    ensures Listed(s')
  {
  }

  /** Without an active line of the user, deleting the entry loses nothing. */
  lemma DeletionKeepsRegistry(s: State, s': State, u: string)
    requires RegistryInv(s) && Listed(s) && u in s.users && OfUser(s.active, u) == {}
    requires s' == s.(users := s.users - {u}, closer := s'.closer)
    ensures RegistryInv(s') && Listed(s')
  {
    NobodyLeft(s, u);
    forall v | v in s'.users ensures s'.users[v] < |s'.objs| && ListAgrees(s', v) {
      assert ListAgrees(s, v);
    }
    DeletionKeepsUnused(s, s', u);
    DeletionKeepsListed(s, s', u);
  }

  lemma ClosingLeavesLists(s: State)
    requires !s.closer.Idle? && !s.closer.Loaded? && !s.closer.ClearedBoth?
    ensures var s' := DoAdvance(s);
      && s'.users == s.users && s'.objs == s.objs && s'.active == s.active
      && s'.registered == s.registered && s'.left == s.left && s'.senders == s.senders
      && !s'.closer.Idle? && !s'.closer.Loaded? && s'.closer.line == s.closer.line && s'.closer.obj == s.closer.obj
  {
  }

  lemma ClosingKeepsInv(s: State)
    requires Inv(s) && !s.closer.Idle? && !s.closer.Loaded? && !s.closer.ClearedBoth?
    ensures Inv(DoAdvance(s))
  {
    ClosingKeepsChannels(s);
    ClosingKeepsCloser(s);
    ClosingLeavesLists(s);
    var s' := DoAdvance(s);
    SameLists(s, s');
    assert EntryInv(s');
    assert SenderInv(s');
  }

  lemma FinishWithDelete(s: State)
    requires Inv(s) && s.closer.ClearedBoth? && DeletesOwnEntry(s, Advance)
    requires s.objs[s.closer.obj].count == 0 && s.closer.line.user in s.users
    ensures Inv(DoAdvance(s))
  {
    assert ListAgrees(s, s.closer.line.user);
    DeletionKeepsRegistry(s, DoAdvance(s), s.closer.line.user);
  }

  lemma FinishWithoutDelete(s: State)
    requires Inv(s) && s.closer.ClearedBoth?
    requires s.objs[s.closer.obj].count != 0 || s.closer.line.user !in s.users
    ensures Inv(s.(closer := Idle))
  {
    SameLists(s, s.(closer := Idle));
    NothingEmptyIsLeft(s);
    IdleKeepsChannels(s);
  }

  lemma IdleKeepsChannels(s: State)
    requires ChannelInv(s) && CloserInv(s) && SenderInv(s) && s.closer.ClearedBoth?
    ensures var s' := s.(closer := Idle); ChannelInv(s') && CloserInv(s') && SenderInv(s')
  {
  }

  lemma NothingEmptyIsLeft(s: State)
    requires RegistryInv(s) && CloserInv(s) && EntryInv(s) && s.closer.ClearedBoth?
    requires s.objs[s.closer.obj].count != 0 || s.closer.line.user !in s.users
    ensures EntryInv(s.(closer := Idle))
  {
    var u := s.closer.line.user;
    if u in s.users && s.users[u] == s.closer.obj {
      assert ListAgrees(s, u);
    }
  }

  lemma FinishIsIdle(s: State)
    requires s.closer.ClearedBoth? && s.closer.obj < |s.objs|
    requires s.objs[s.closer.obj].count != 0 || s.closer.line.user !in s.users
    ensures DoAdvance(s) == s.(closer := Idle)
  {
    assert s.closer.line.user !in s.users ==> s.users - {s.closer.line.user} == s.users;
  }

  lemma FinishKeepsInv(s: State)
    requires Inv(s) && s.closer.ClearedBoth? && DeletesOwnEntry(s, Advance)
    ensures Inv(DoAdvance(s))
  {
    if s.objs[s.closer.obj].count == 0 && s.closer.line.user in s.users {
      FinishWithDelete(s);
    } else {
      FinishWithoutDelete(s);
      FinishIsIdle(s);
    }
  }

  /** A step of the unregister handler keeps everything, if it deletes only its own entry. */
  lemma AdvanceKeepsInv(s: State)
    requires Inv(s) && DeletesOwnEntry(s, Advance)
    ensures Inv(DoAdvance(s))
  {
    if s.closer.Loaded? {
      RemovalKeepsRegistry(s, s.closer.line);
      RemovalKeepsListed(s, s.closer.line);
      RemovalKeepsSenders(s);
      RemovalKeepsCloser(s);
    } else if s.closer.ClearedBoth? {
      FinishKeepsInv(s);
    } else if !s.closer.Idle? {
      ClosingKeepsInv(s);
    }
  }

  lemma BeginKeepsInv(s: State, l: LineRef)
    requires Inv(s)
    ensures Inv(DoBegin(s, l))
  {
    SameLists(s, DoBegin(s, l));
    BeginKeepsChannels(s, l);
    BeginKeepsCloser(s, l);
  }

  lemma BeginKeepsChannels(s: State, l: LineRef)
    requires ChannelInv(s) && SenderInv(s)
    ensures ChannelInv(DoBegin(s, l)) && SenderInv(DoBegin(s, l))
  {
  }

  lemma BeginKeepsCloser(s: State, l: LineRef)
    requires RegistryInv(s) && CloserInv(s) && EntryInv(s)
    ensures CloserInv(DoBegin(s, l)) && EntryInv(DoBegin(s, l))
  {
  }

  lemma SweepKeepsInv(s: State, u: string)
    requires Inv(s)
    ensures Inv(Do(s, Sweep(u)))
  {
    var s' := Do(s, Sweep(u));
    if s' != s {
      assert ListAgrees(s, u);
      DeletionKeepsRegistry(s, s', u);
      NobodyLeft(s, u);
    }
  }

  lemma StartKeepsInv(s: State, t: nat, u: string, kind: Kind)
    requires Inv(s)
    ensures Inv(Do(s, StartSender(t, u, kind)))
  {
    var s' := Do(s, StartSender(t, u, kind));
    forall k | k in s'.senders ensures SenderOk(s'.objs, s'.senders[k]) {
      if k in s.senders {
        assert SenderOk(s.objs, s.senders[k]);
      }
    }
    SameRegistry(s, s');
  }

  lemma StepKeepsInv(s: State, step: Step)
    requires Inv(s) && DeletesOwnEntry(s, step)
    ensures Inv(Do(s, step))
  {
    match step
    case Register(l) => RegisterKeepsInv(s, l);
    case BeginUnregister(l) => BeginKeepsInv(s, l);
    case Advance => AdvanceKeepsInv(s);
    case Sweep(u) => SweepKeepsInv(s, u);
    case StartSender(t, u, kind) => StartKeepsInv(s, t, u, kind);
    case _ => SenderStepKeepsInv(s, step);
  }

  lemma RegisterKeepsInv(s: State, l: LineRef)
    requires Inv(s)
    ensures Inv(DoRegister(s, l))
  {
    RegisterKeepsRegistry(s, l);
    RegisterKeepsListed(s, l);
    RegisterKeepsChannels(s, l);
    RegisterKeepsSenders(s, l);
    RegisterKeepsCloser(s, l);
    RegisterKeepsEntries(s, l);
  }

  lemma SenderStepKeepsInv(s: State, step: Step)
    requires Inv(s) && IsSenderStep(step)
    ensures Inv(DoSender(s, step))
  {
    SenderStepKeepsSenders(s, step);
    SameRegistry(s, DoSender(s, step));
  }

  lemma {:induction false} RunKeepsInv(s: State, steps: seq<Step>)
    requires Inv(s) && AllDeleteOwnEntry(s, steps)
    ensures Inv(Run(s, steps))
    decreases |steps|
  {
    if steps != [] {
      StepKeepsInv(s, steps[0]);
      RunKeepsInv(Do(s, steps[0]), steps[1..]);
    }
  }

  // ---------------------------------------------------------------- the theorems

  /**
    Channel safety: no push or close ever sends on a closed channel or hangs on a nil one, and no
    channel is closed twice, whatever the interleaving and however many lines share an id.
   */
  lemma NoSendOnClosedChannel(steps: seq<Step>)
    requires AllDeleteOwnEntry(INITIAL, steps)
    ensures !Run(INITIAL, steps).panicked && !Run(INITIAL, steps).stuck
  {
    RunKeepsInv(INITIAL, steps);
  }

  function CountOf(s: State, user: string): int {
    if user in s.users && s.users[user] < |s.objs| then s.objs[s.users[user]].count else 0
  }

  ghost function SumOfCounts(s: State, users: set<string>): int {
    if users == {} then 0
    else
      var u := Pick(users);
      CountOf(s, u) + SumOfCounts(s, users - {u})
  }

  ghost function Pick(users: set<string>): (u: string)
    requires users != {}
    ensures u in users
  {
    var u :| u in users;
    u
  }

  function ActiveOf(s: State, users: set<string>): set<LineRef> {
    set l | l in s.active && l.user in users
  }

  lemma ActiveSplits(s: State, users: set<string>, u: string)
    requires u in users
    ensures |ActiveOf(s, users)| == |OfUser(s.active, u)| + |ActiveOf(s, users - {u})|
  {
    assert ActiveOf(s, users) == OfUser(s.active, u) + ActiveOf(s, users - {u});
    assert OfUser(s.active, u) !! ActiveOf(s, users - {u});
  }

  lemma {:induction false} SumIsActive(s: State, users: set<string>)
    requires RegistryInv(s) && users <= s.users.Keys
    ensures SumOfCounts(s, users) == |ActiveOf(s, users)|
    decreases |users|
  {
    if users == {} {
      assert ActiveOf(s, users) == {};
    } else {
      var u := Pick(users);
      SumIsActive(s, users - {u});
      assert ListAgrees(s, u);
      ActiveSplits(s, users, u);
    }
  }

  lemma {:induction false} NoRepeatsFits(refs: seq<LineRef>, lines: set<LineRef>)
    requires NoRepeats(refs) && forall l | l in refs :: l in lines
    ensures |refs| <= |lines|
    ensures (forall l | l in lines :: l in refs) ==> |refs| == |lines|
    decreases |refs|
  {
    if refs != [] {
      var l := refs[|refs| - 1];
      var rest := refs[..|refs| - 1];
      assert l !in rest;
      assert refs == rest + [l];
      NoRepeatsFits(rest, lines - {l});
    }
  }

  lemma SplitCount(all: set<LineRef>, part: set<LineRef>, user: string)
    requires part <= all
    ensures |OfUser(all - part, user)| == |OfUser(all, user)| - |OfUser(part, user)|
  {
    assert OfUser(all - part, user) == OfUser(all, user) - OfUser(part, user);
    assert OfUser(part, user) <= OfUser(all, user);
  }

  lemma CountersAgreeIn(s: State, user: string)
    requires RegistryInv(s) && CloserInv(s) && EntryInv(s)
    ensures !s.closer.Dropped? ==> s.connCount == SumOfCounts(s, s.users.Keys)
    ensures s.closer.Idle? ==> CountOf(s, user) == |OfUser(s.registered, user)| - |OfUser(s.left, user)|
    ensures s.closer.Idle? ==> (user in s.users <==> CountOf(s, user) > 0)
  {
    SumIsActive(s, s.users.Keys);
    assert ActiveOf(s, s.users.Keys) == s.active;
    if s.closer.Idle? {
      assert s.active == s.registered - s.left;
      SplitCount(s.registered, s.left, user);
      if user in s.users {
        assert ListAgrees(s, user);
      } else {
        assert OfUser(s.active, user) == {};
      }
    }
  }

  /**
    The three layers of counting agree. Between two runs of the unregister handler a user's
    counter is its registrations minus its unregistrations, and the entry exists exactly while
    the counter is positive.
   */
  lemma CountersAgree(steps: seq<Step>, user: string)
    requires AllDeleteOwnEntry(INITIAL, steps)
    ensures var s := Run(INITIAL, steps);
      && (!s.closer.Dropped? ==> s.connCount == SumOfCounts(s, s.users.Keys))
      && (s.closer.Idle? ==>
            CountOf(s, user) == |OfUser(s.registered, user)| - |OfUser(s.left, user)|
            && (user in s.users <==> CountOf(s, user) > 0))
  {
    RunKeepsInv(INITIAL, steps);
    CountersAgreeIn(Run(INITIAL, steps), user);
  }

  /** A list is never longer than its counter says, and as long when no two lines of the user share an id. */
  lemma ListFitsCounter(steps: seq<Step>, user: string)
    requires AllDeleteOwnEntry(INITIAL, steps)
    requires user in Run(INITIAL, steps).users
    ensures var s := Run(INITIAL, steps); var o := s.users[user];
      && o < |s.objs| && |s.objs[o].refs| <= s.objs[o].count
      && ((forall l, m | l in s.registered && m in s.registered && l.user == user == m.user && l != m :: l.id != m.id) ==>
            |s.objs[o].refs| == s.objs[o].count && (forall l | l in OfUser(s.active, user) :: l in s.objs[o].refs))
  {
    RunKeepsInv(INITIAL, steps);
    var s := Run(INITIAL, steps);
    assert ListAgrees(s, user);
    var refs := s.objs[s.users[user]].refs;
    NoRepeatsFits(refs, OfUser(s.active, user));
  }

  // ---------------------------------------------------------------- exactly when it holds

  /** Every registered line that has not been removed can be found through its user's entry. */
  ghost predicate Reachable(s: State) {
    forall l | l in s.active :: l.user in s.users
  }

  ghost predicate AlwaysReachable(s: State, steps: seq<Step>)
    decreases |steps|
  {
    Reachable(s) && (steps == [] || AlwaysReachable(Do(s, steps[0]), steps[1..]))
  }

  lemma ForeignDeleteLosesLines(s: State, step: Step)
    requires Inv(s) && !DeletesOwnEntry(s, step)
    ensures !Reachable(Do(s, step))
  {
    var u := s.closer.line.user;
    assert OfUser(s.active, u) != {};
    var l :| l in OfUser(s.active, u);
    assert l in Do(s, step).active;
  }

  lemma {:induction false} ReachableExactlyFrom(s: State, steps: seq<Step>)
    requires Inv(s)
    ensures AlwaysReachable(s, steps) <==> AllDeleteOwnEntry(s, steps)
    decreases |steps|
  {
    if steps != [] {
      if DeletesOwnEntry(s, steps[0]) {
        StepKeepsInv(s, steps[0]);
        ReachableExactlyFrom(Do(s, steps[0]), steps[1..]);
      } else {
        ForeignDeleteLosesLines(s, steps[0]);
      }
    }
  }

  /**
    The condition is exact: through a whole run every active line stays reachable if and only if
    each delete of the unregister handler met its own entry.
   */
  lemma LinesReachableExactly(steps: seq<Step>)
    ensures AlwaysReachable(INITIAL, steps) <==> AllDeleteOwnEntry(INITIAL, steps)
  {
    ReachableExactlyFrom(INITIAL, steps);
  }

  // ---------------------------------------------------------------- the counters, exactly

  /** The connection count is the sum of the line counts, but for the moment between the two decrements. */
  ghost predicate CountIsSum(s: State) {
    !s.closer.Dropped? ==> s.connCount == SumOfCounts(s, s.users.Keys)
  }

  /** All three layers agree, for every user. */
  ghost predicate LayersAgree(s: State) {
    && CountIsSum(s)
    && (s.closer.Idle? ==> forall user ::
          && CountOf(s, user) == |OfUser(s.registered, user)| - |OfUser(s.left, user)|
          && (user in s.users <==> CountOf(s, user) > 0))
  }

  ghost predicate AlwaysCountIsSum(s: State, steps: seq<Step>)
    decreases |steps|
  {
    CountIsSum(s) && (steps == [] || AlwaysCountIsSum(Do(s, steps[0]), steps[1..]))
  }

  ghost predicate AlwaysLayersAgree(s: State, steps: seq<Step>)
    decreases |steps|
  {
    LayersAgree(s) && (steps == [] || AlwaysLayersAgree(Do(s, steps[0]), steps[1..]))
  }

  lemma {:induction false} SameCountsSameSum(s: State, t: State, users: set<string>)
    requires forall u | u in users :: CountOf(s, u) == CountOf(t, u)
    ensures SumOfCounts(s, users) == SumOfCounts(t, users)
    decreases |users|
  {
    if users != {} {
      SameCountsSameSum(s, t, users - {Pick(users)});
    }
  }

  lemma ForeignDeleteDropsEntry(s: State, step: Step)
    requires !DeletesOwnEntry(s, step)
    ensures s.closer.ClearedBoth?
    ensures var u := s.closer.line.user;
      u in s.users && s.users[u] != s.closer.obj && Do(s, step) == s.(users := s.users - {u}, closer := Idle)
  {
  }

  lemma ForeignEntryIsNotEmpty(s: State)
    requires CloserInv(s) && EntryInv(s) && s.closer.ClearedBoth?
    requires s.closer.line.user in s.users && s.users[s.closer.line.user] != s.closer.obj
    ensures OfUser(s.active, s.closer.line.user) != {} && s.connCount == |s.active|
  {
  }

  /** Without one entry the sum is what the other users' active lines are. */
  lemma SumWithout(s: State, t: State, u: string)
    requires RegistryInv(s) && u in s.users && t == s.(users := s.users - {u}, closer := Idle)
    ensures SumOfCounts(t, t.users.Keys) == |s.active| - |OfUser(s.active, u)|
  {
    var others := s.users.Keys - {u};
    assert t.users.Keys == others;
    SameCountsSameSum(s, t, others);
    SumIsActive(s, others);
    ActiveSplits(s, s.users.Keys, u);
    assert ActiveOf(s, s.users.Keys) == s.active;
  }

  /** A foreign delete takes a positive counter out of the sum and leaves the connection count as it was. */
  lemma ForeignDeleteBreaksCount(s: State, step: Step)
    requires Inv(s) && !DeletesOwnEntry(s, step)
    ensures var t := Do(s, step); !CountIsSum(t) && t.connCount > SumOfCounts(t, t.users.Keys)
  {
    ForeignDeleteDropsEntry(s, step);
    SumWithout(s, Do(s, step), s.closer.line.user);
    ForeignEntryIsNotEmpty(s);
  }

  lemma {:induction false} CountersAgreeExactlyFrom(s: State, steps: seq<Step>)
    requires Inv(s)
    ensures AlwaysCountIsSum(s, steps) <==> AllDeleteOwnEntry(s, steps)
    ensures AlwaysLayersAgree(s, steps) <==> AllDeleteOwnEntry(s, steps)
    decreases |steps|
  {
    InvMakesLayersAgree(s);
    if steps != [] {
      if DeletesOwnEntry(s, steps[0]) {
        StepKeepsInv(s, steps[0]);
        CountersAgreeExactlyFrom(Do(s, steps[0]), steps[1..]);
      } else {
        ForeignDeleteBreaksCount(s, steps[0]);
      }
    }
  }

  lemma InvMakesLayersAgree(s: State)
    requires RegistryInv(s) && CloserInv(s) && EntryInv(s)
    ensures LayersAgree(s)
  {
    CountersAgreeIn(s, "");
    if s.closer.Idle? {
      forall user
        ensures CountOf(s, user) == |OfUser(s.registered, user)| - |OfUser(s.left, user)|
        ensures user in s.users <==> CountOf(s, user) > 0
      {
        CountersAgreeIn(s, user);
      }
    }
  }

  /**
    Through a whole run the three layers of counting agree, and even the connection count alone is
    the sum of the line counts, if and only if each delete of the unregister handler met its own
    entry.
   */
  lemma CountersAgreeExactly(steps: seq<Step>)
    ensures AlwaysCountIsSum(INITIAL, steps) <==> AllDeleteOwnEntry(INITIAL, steps)
    ensures AlwaysLayersAgree(INITIAL, steps) <==> AllDeleteOwnEntry(INITIAL, steps)
  {
    CountersAgreeExactlyFrom(INITIAL, steps);
  }
}

/**
  The lease lock as a timed protocol: any number of clients whose requests travel to the server
  with any delay and in any order, while the server's clock advances.
 */
module LeaseProtocol {
  import opened LeaseLock

  /** A granted handle; `leaseEnd` is where its last successful set or extend put the expiry. */
  datatype Handle = Handle(resource: string, owner: string, ttl: int, released: bool, leaseEnd: int)

  /** A script call that has been sent and has not reached the server. */
  datatype Message = ExtendOf(handle: nat) | UnlockOf(handle: nat)

  datatype State = State(now: int, store: Store, handles: seq<Handle>, flight: multiset<Message>)

  datatype Step =
    | Tick(duration: nat)
    | Acquire(resource: string, owner: string, ttl: int)
    | SendExtend(sender: nat)
    | SendUnlock(sender: nat)
    | Deliver(message: Message)

  function Initial(now: int): State {
    State(now, map[], [], multiset{})
  }

  /** One step; a step that its sender's own checks rule out, or that delivers nothing, changes nothing. */
  function Do(s: State, step: Step): State {
    match step
    case Tick(duration) => s.(now := s.now + duration)
    case Acquire(resource, owner, ttl) =>
      if ttl <= 0 then s
      else
        var (store, ok) := SetNX(s.store, s.now, resource, owner, ttl);
        if ok
        then s.(store := store,
                handles := s.handles + [Handle(resource, owner, ttl, false, s.now + SetMillis(ttl) * MILLISECOND)])
        else s
    case SendExtend(h) =>
      if h < |s.handles| && !s.handles[h].released then s.(flight := s.flight + multiset{ExtendOf(h)}) else s
    case SendUnlock(h) =>
      if h < |s.handles| && !s.handles[h].released
      then s.(handles := s.handles[h := s.handles[h].(released := true)], flight := s.flight + multiset{UnlockOf(h)})
      else s
    case Deliver(m) =>
      if m !in s.flight || m.handle >= |s.handles| || s.handles[m.handle].ttl <= 0 then s
      else
        var h := s.handles[m.handle];
        var s' := s.(flight := s.flight - multiset{m});
        match m
        case ExtendOf(i) =>
          var (store, ok) := Refresh(s.store, s.now, h.resource, h.owner, Millis(h.ttl));
          if ok
          then s'.(store := store, handles := s.handles[i := h.(leaseEnd := s.now + Millis(h.ttl) * MILLISECOND)])
          else s'
        case UnlockOf(i) => s'.(store := Release(s.store, s.now, h.resource, h.owner).0)
  }

  function Run(s: State, steps: seq<Step>): State
    decreases |steps|
  {
    if steps == [] then s else Run(Do(s, steps[0]), steps[1..])
  }

  /** The owner of an acquisition was never used on that resource before. */
  predicate FreshOwner(s: State, step: Step) {
    step.Acquire? ==>
      forall i | 0 <= i < |s.handles| && s.handles[i].resource == step.resource :: s.handles[i].owner != step.owner
  }

  ghost predicate FreshOwners(s: State, steps: seq<Step>)
    decreases |steps|
  {
    steps == [] || (FreshOwner(s, steps[0]) && FreshOwners(Do(s, steps[0]), steps[1..]))
  }

  /** The client may act on the resource: not released, and the last set or extend has not run out. */
  predicate Leased(s: State, i: nat) {
    i < |s.handles| && !s.handles[i].released && s.now < s.handles[i].leaseEnd
  }

  ghost predicate Safe(s: State) {
    && (forall i | 0 <= i < |s.handles| && Leased(s, i) ::
          HeldBy(s.store, s.now, s.handles[i].resource, s.handles[i].owner))
    && (forall i, j | 0 <= i < j < |s.handles| && Leased(s, i) && Leased(s, j) ::
          s.handles[i].resource != s.handles[j].resource)
  }

  // ---------------------------------------------------------------- the invariant

  /** Entry and handle agree on the end of the lease wherever the entry bears the handle's owner. */
  ghost predicate Matches(s: State, h: Handle) {
    && h.ttl > 0
    && h.leaseEnd <= s.now + SetMillis(h.ttl) * MILLISECOND
    && (h.resource in s.store && s.store[h.resource].owner == h.owner ==> s.store[h.resource].expiry == h.leaseEnd)
    && (!h.released && s.now < h.leaseEnd ==> HeldBy(s.store, s.now, h.resource, h.owner))
  }

  ghost predicate Inv(s: State) {
    && (forall i | 0 <= i < |s.handles| :: Matches(s, s.handles[i]))
    && (forall i, j | 0 <= i < j < |s.handles| ::
          s.handles[i].resource != s.handles[j].resource || s.handles[i].owner != s.handles[j].owner)
    && (forall m | m in s.flight :: m.handle < |s.handles| && (m.UnlockOf? ==> s.handles[m.handle].released))
  }

  // ---------------------------------------------------------------- the steps are the calls

  /** Acquiring is one SET NX of the time to live: a handle for the one who gets the key, and nothing for the others. */
  lemma AcquireExactly(s: State, resource: string, owner: string, ttl: int)
    requires ttl > 0
    ensures var t := Do(s, Acquire(resource, owner, ttl)); var n := |s.handles|;
      if resource in s.store && s.now < s.store[resource].expiry then t == s
      else
        && |t.handles| == n + 1 && t.handles[..n] == s.handles && t.now == s.now && t.flight == s.flight
        && (t.handles[n].resource, t.handles[n].owner, t.handles[n].ttl, t.handles[n].released) == (resource, owner, ttl, false)
        && t.store == s.store[resource := Entry(owner, t.handles[n].leaseEnd)]
        && Lasts(t.store, t.now, resource, ttl)
  {
    WholeMillis(ttl);
  }

  /** A released handle sends nothing; sending an unlock releases the handle, and touches nothing else. */
  lemma SendingExactly(s: State, h: nat)
    ensures var live := h < |s.handles| && !s.handles[h].released;
      && Do(s, SendExtend(h)) == (if live then s.(flight := s.flight + multiset{ExtendOf(h)}) else s)
      && Do(s, SendUnlock(h)) == (if live
           then s.(handles := s.handles[h := s.handles[h].(released := true)], flight := s.flight + multiset{UnlockOf(h)})
           else s)
  {
  }

  /** An unlock that arrives frees the key if its own lease still stands, and changes nothing otherwise. */
  lemma UnlockArrives(s: State, h: nat)
    requires Inv(s) && UnlockOf(h) in s.flight
    ensures var t := Do(s, Deliver(UnlockOf(h))); var r := s.handles[h].resource;
      && t.handles == s.handles && t.now == s.now && t.flight == s.flight - multiset{UnlockOf(h)}
      && t.store == (if HeldBy(s.store, s.now, r, s.handles[h].owner) then s.store - {r} else s.store)
  {
    assert Matches(s, s.handles[h]);
  }

  /** An extension that arrives renews its own lease if it still stands, and changes nothing otherwise. */
  lemma ExtensionArrives(s: State, h: nat)
    requires Inv(s) && ExtendOf(h) in s.flight
    ensures var t := Do(s, Deliver(ExtendOf(h))); var g := s.handles[h];
      && t.now == s.now && t.flight == s.flight - multiset{ExtendOf(h)}
      && (if HeldBy(s.store, s.now, g.resource, g.owner)
          then
            && t.handles == s.handles[h := g.(leaseEnd := t.handles[h].leaseEnd)]
            && t.store == s.store[g.resource := Entry(g.owner, t.handles[h].leaseEnd)]
            && var length := t.handles[h].leaseEnd - t.now;
            && length % 1_000_000 == 0 && g.ttl - 1_000_000 < length <= g.ttl && (g.ttl < 1_000_000 ==> length == 0)
          else t.handles == s.handles && t.store == s.store)
  {
    assert Matches(s, s.handles[h]);
    WholeMillis(s.handles[h].ttl);
  }

  lemma StepKeepsInv(s: State, step: Step)
    requires Inv(s) && FreshOwner(s, step)
    ensures Inv(Do(s, step))
  {
    var t := Do(s, step);
    match step {
      case Deliver(m) => DeliveryKeepsInv(s, m);
      case Acquire(resource, owner, ttl) =>
        forall i | 0 <= i < |t.handles| ensures Matches(t, t.handles[i]) {
          if i < |s.handles| {
            assert Matches(s, s.handles[i]);
          }
        }
      case _ =>
        forall i | 0 <= i < |t.handles| ensures Matches(t, t.handles[i]) {
          assert Matches(s, s.handles[i]);
        }
    }
  }

  lemma DeliveryKeepsInv(s: State, m: Message)
    requires Inv(s)
    ensures Inv(Do(s, Deliver(m)))
  {
    var t := Do(s, Deliver(m));
    forall i | 0 <= i < |t.handles| ensures Matches(t, t.handles[i]) {
      assert Matches(s, s.handles[i]);
      if m in s.flight {
        assert Matches(s, s.handles[m.handle]);
      }
    }
  }

  lemma InvIsSafe(s: State)
    requires Inv(s)
    ensures Safe(s)
  {
    forall i | 0 <= i < |s.handles| && Leased(s, i)
      ensures HeldBy(s.store, s.now, s.handles[i].resource, s.handles[i].owner)
    {
      assert Matches(s, s.handles[i]);
    }
  }

  lemma {:induction false} RunKeepsInv(s: State, steps: seq<Step>)
    requires Inv(s) && FreshOwners(s, steps)
    ensures Inv(Run(s, steps))
    decreases |steps|
  {
    if steps != [] {
      StepKeepsInv(s, steps[0]);
      RunKeepsInv(Do(s, steps[0]), steps[1..]);
    }
  }

  /**
    Mutual exclusion: with a fresh owner for each acquisition, after any steps in any order, a
    leased handle is the stored owner, and no two leased handles share a resource.
   */
  lemma MutualExclusion(now: int, steps: seq<Step>)
    requires FreshOwners(Initial(now), steps)
    ensures Safe(Run(Initial(now), steps))
  {
    RunKeepsInv(Initial(now), steps);
    InvIsSafe(Run(Initial(now), steps));
  }

  /**
    A late request is harmless: it changes the store only where the sender's own entry is still
    alive, so it touches no other owner's entry and never revives a lease that has run out.
   */
  lemma LateRequestIsHarmless(s: State, m: Message, resource: string)
    requires Inv(s) && m in s.flight
    ensures var h := s.handles[m.handle]; var t := Do(s, Deliver(m));
      && (t.store != s.store ==> HeldBy(s.store, s.now, h.resource, h.owner) && s.now < h.leaseEnd)
      && (resource in s.store && (resource != h.resource || s.store[resource].owner != h.owner) ==>
            resource in t.store && t.store[resource] == s.store[resource])
      && (Held(t.store, t.now, resource) ==>
            Held(s.store, s.now, resource) && t.store[resource].owner == s.store[resource].owner)
      && (forall j | 0 <= j < |s.handles| && j != m.handle :: t.handles[j] == s.handles[j] && Leased(t, j) == Leased(s, j))
  {
    assert Matches(s, s.handles[m.handle]);
  }

  /**
    Fresh owners are needed: where an owner is used again while an earlier handle of it is
    unreleased, the earlier handle's next extend breaks the exclusion.
   */
  lemma ReusedOwnerBreaksExclusion(s: State, i: nat, ttl: int)
    requires Inv(s) && i < |s.handles| && !s.handles[i].released && ttl > 0
    requires !Held(s.store, s.now, s.handles[i].resource)
    ensures var h := s.handles[i];
      !Safe(Run(s, [Acquire(h.resource, h.owner, ttl), SendExtend(i), Deliver(ExtendOf(i))]))
  {
    var h := s.handles[i];
    var a := Do(s, Acquire(h.resource, h.owner, ttl));
    var b := Do(a, SendExtend(i));
    var c := Do(b, Deliver(ExtendOf(i)));
    RunOfThree(s, Acquire(h.resource, h.owner, ttl), SendExtend(i), Deliver(ExtendOf(i)));
    assert Matches(s, h);
    assert ExtendOf(i) in b.flight;
    ExtensionTakesOver(b, i, |s.handles|);
    if Leased(c, i) {
      assert c.handles[i].resource == c.handles[|s.handles|].resource;
    }
  }

  lemma RunOfThree(s: State, a: Step, b: Step, c: Step)
    ensures Run(s, [a, b, c]) == Do(Do(Do(s, a), b), c)
  {
    var s1, s2 := Do(s, a), Do(Do(s, a), b);
    assert [a, b, c][1..] == [b, c] && [b, c][1..] == [c];
    RunOfOne(s2, c);
    assert Run(s1, [b, c]) == Run(s2, [c]);
    assert Run(s, [a, b, c]) == Run(s1, [b, c]);
  }

  /** The delivered extension of handle i touches the entry that handle n of the same owner has just made. */
  lemma ExtensionTakesOver(s: State, i: nat, n: nat)
    requires i < n < |s.handles| && ExtendOf(i) in s.flight && !s.handles[i].released && s.handles[i].ttl > 0
    requires Leased(s, n) && s.handles[n].resource == s.handles[i].resource && s.handles[n].owner == s.handles[i].owner
    requires HeldBy(s.store, s.now, s.handles[n].resource, s.handles[n].owner)
    ensures var c := Do(s, Deliver(ExtendOf(i)));
      && |c.handles| == |s.handles| && Leased(c, n) && c.handles[n] == s.handles[n] && c.now == s.now
      && c.handles[i] == s.handles[i].(leaseEnd := s.now + Millis(s.handles[i].ttl) * MILLISECOND)
      && c.store[s.handles[i].resource].expiry == s.now + Millis(s.handles[i].ttl) * MILLISECOND
  {
  }

  // ---------------------------------------------------------------- automatic extension

  /** The goroutine's timer: two thirds of the time to live, in integer arithmetic. */
  function Interval(ttl: int): int {
    ttl / 3 * 2
  }

  function Elapsed(steps: seq<Step>): nat {
    if steps == [] then 0 else (if steps[0].Tick? then steps[0].duration else 0) + Elapsed(steps[1..])
  }

  /** A step that handle h has no part in. */
  predicate Foreign(step: Step, h: nat) {
    match step
    case Tick(_) => true
    case Acquire(_, _, _) => true
    case SendExtend(i) => i != h
    case SendUnlock(i) => i != h
    case Deliver(m) => m.handle != h
  }

  /**
    One round of the goroutine. `reply` is the delay until the previous answer is back and
    `request` the delay of the next call; `waiting` and `travelling` are what everybody else does
    in the meantime.
   */
  datatype Round = Round(reply: nat, request: nat, waiting: seq<Step>, travelling: seq<Step>) {

    ghost predicate Valid(h: nat, ttl: int) {
      && (forall k | 0 <= k < |waiting| :: Foreign(waiting[k], h))
      && (forall k | 0 <= k < |travelling| :: Foreign(travelling[k], h))
      && Elapsed(waiting) == reply + Interval(ttl)
      && Elapsed(travelling) == request
    }
  }

  /** The client works on under a lease that is in force at every moment of these steps. */
  ghost predicate Unbroken(s: State, steps: seq<Step>, h: nat)
    decreases |steps|
  {
    && Leased(s, h)
    && HeldBy(s.store, s.now, s.handles[h].resource, s.handles[h].owner)
    && (steps == [] || Unbroken(Do(s, steps[0]), steps[1..], h))
  }

  /** The lease is unbroken through every round, and every refresh on the way succeeds. */
  ghost predicate UnbrokenRounds(s: State, rounds: seq<Round>, h: nat)
    decreases |rounds|
  {
    Leased(s, h) &&
    (rounds == [] ||
     (&& Unbroken(s, rounds[0].waiting, h)
      && var sent := Do(Run(s, rounds[0].waiting), SendExtend(h));
      && Unbroken(sent, rounds[0].travelling, h)
      && UnbrokenRounds(Do(Run(sent, rounds[0].travelling), Deliver(ExtendOf(h))), rounds[1..], h)))
  }

  ghost predicate FreshRounds(s: State, rounds: seq<Round>, h: nat)
    decreases |rounds|
  {
    rounds == [] ||
    (&& FreshOwners(s, rounds[0].waiting)
     && var sent := Do(Run(s, rounds[0].waiting), SendExtend(h));
     && FreshOwners(sent, rounds[0].travelling)
     && FreshRounds(Do(Run(sent, rounds[0].travelling), Deliver(ExtendOf(h))), rounds[1..], h))
  }

  lemma ForeignStepLeavesHandle(s: State, step: Step, h: nat)
    requires Inv(s) && h < |s.handles| && Foreign(step, h)
    ensures h < |Do(s, step).handles| && Do(s, step).handles[h] == s.handles[h]
    ensures Do(s, step).now == s.now + (if step.Tick? then step.duration else 0)
    ensures Do(s, step).flight[ExtendOf(h)] == s.flight[ExtendOf(h)]
  {
  }

  lemma {:induction false} ForeignStepsLeaveLease(s: State, steps: seq<Step>, h: nat)
    requires Inv(s) && FreshOwners(s, steps)
    requires forall k | 0 <= k < |steps| :: Foreign(steps[k], h)
    requires Leased(s, h) && s.now + Elapsed(steps) < s.handles[h].leaseEnd
    ensures var t := Run(s, steps);
      && Inv(t) && h < |t.handles| && t.handles[h] == s.handles[h] && t.now == s.now + Elapsed(steps)
      && t.flight[ExtendOf(h)] == s.flight[ExtendOf(h)]
    ensures Unbroken(s, steps, h)
    decreases |steps|
  {
    InvIsSafe(s);
    if steps != [] {
      StepKeepsInv(s, steps[0]);
      ForeignStepLeavesHandle(s, steps[0], h);
      ForeignStepsLeaveLease(Do(s, steps[0]), steps[1..], h);
    }
  }

  lemma SendingLeavesLease(s: State, h: nat)
    requires Inv(s) && Leased(s, h)
    ensures var t := Do(s, SendExtend(h));
      Inv(t) && t.handles == s.handles && t.now == s.now && t.flight[ExtendOf(h)] > 0
  {
    StepKeepsInv(s, SendExtend(h));
  }

  lemma DeliveredExtendRenews(s: State, h: nat)
    requires Inv(s) && Leased(s, h) && s.flight[ExtendOf(h)] > 0
    requires Millis(s.handles[h].ttl) > 0
    ensures var t := Do(s, Deliver(ExtendOf(h)));
      && Inv(t) && Leased(t, h) && t.handles[h].ttl == s.handles[h].ttl
      && t.handles[h].leaseEnd == t.now + Millis(t.handles[h].ttl) * MILLISECOND
  {
    assert Matches(s, s.handles[h]);
    DeliveryKeepsInv(s, ExtendOf(h));
    assert ExtendOf(h) in s.flight;
  }

  /**
    The first extension of a lease below one millisecond ends it: the script is given 0
    milliseconds, and yet reports success.
   */
  lemma ExtensionEndsShortLease(s: State, h: nat)
    requires Inv(s) && h < |s.handles| && ExtendOf(h) in s.flight && Millis(s.handles[h].ttl) == 0
    ensures var t := Do(s, Deliver(ExtendOf(h))); var r := s.handles[h].resource;
      && !Leased(t, h)
      && (HeldBy(s.store, s.now, r, s.handles[h].owner) ==>
            !Held(t.store, t.now, r) && Refresh(s.store, s.now, r, s.handles[h].owner, 0).1)
  {
    assert Matches(s, s.handles[h]);
  }

  /** One round ends with a full lease again. */
  lemma RoundRenews(s: State, r: Round, h: nat)
    requires Inv(s) && Leased(s, h)
    requires s.handles[h].leaseEnd == s.now + SetMillis(s.handles[h].ttl) * MILLISECOND
    requires r.Valid(h, s.handles[h].ttl)
    requires Interval(s.handles[h].ttl) + r.reply + r.request < Millis(s.handles[h].ttl) * MILLISECOND
    requires FreshOwners(s, r.waiting)
    requires FreshOwners(Do(Run(s, r.waiting), SendExtend(h)), r.travelling)
    ensures Unbroken(s, r.waiting, h)
    ensures Unbroken(Do(Run(s, r.waiting), SendExtend(h)), r.travelling, h)
    ensures var t := Do(Run(Do(Run(s, r.waiting), SendExtend(h)), r.travelling), Deliver(ExtendOf(h)));
      && Inv(t) && Leased(t, h) && t.handles[h].ttl == s.handles[h].ttl
      && t.handles[h].leaseEnd == t.now + SetMillis(t.handles[h].ttl) * MILLISECOND
  {
    ForeignStepsLeaveLease(s, r.waiting, h);
    var fired := Run(s, r.waiting);
    SendingLeavesLease(fired, h);
    var sent := Do(fired, SendExtend(h));
    ForeignStepsLeaveLease(sent, r.travelling, h);
    DeliveredExtendRenews(Run(sent, r.travelling), h);
  }

  lemma {:induction false} RoundsRenew(s: State, rounds: seq<Round>, h: nat)
    requires Inv(s) && Leased(s, h)
    requires s.handles[h].leaseEnd == s.now + SetMillis(s.handles[h].ttl) * MILLISECOND
    requires forall k | 0 <= k < |rounds| :: rounds[k].Valid(h, s.handles[h].ttl)
    requires forall k | 0 <= k < |rounds| ::
      Interval(s.handles[h].ttl) + rounds[k].reply + rounds[k].request < Millis(s.handles[h].ttl) * MILLISECOND
    requires FreshRounds(s, rounds, h)
    ensures UnbrokenRounds(s, rounds, h)
    decreases |rounds|
  {
    if rounds != [] {
      RoundRenews(s, rounds[0], h);
      var t := Do(Run(Do(Run(s, rounds[0].waiting), SendExtend(h)), rounds[0].travelling), Deliver(ExtendOf(h)));
      RoundsRenew(t, rounds[1..], h);
    }
  }

  /** The rounds that can happen to handle h when no single delay exceeds `delay`. */
  ghost predicate Admissible(s: State, rounds: seq<Round>, h: nat, delay: nat)
    requires h < |s.handles|
  {
    && FreshRounds(s, rounds, h)
    && forall k | 0 <= k < |rounds| ::
         rounds[k].Valid(h, s.handles[h].ttl) && rounds[k].reply <= delay && rounds[k].request <= delay
  }

  /**
    Automatic extension keeps a new lease unbroken for any number of rounds exactly when the
    interval plus two delays stays below the time to live in whole milliseconds.
   */
  lemma AutoExtendKeepsLeaseExactly(s: State, h: nat, delay: nat)
    requires Inv(s) && Leased(s, h)
    requires s.handles[h].leaseEnd == s.now + SetMillis(s.handles[h].ttl) * MILLISECOND
    ensures (forall rounds | Admissible(s, rounds, h, delay) :: UnbrokenRounds(s, rounds, h))
            <==> s.handles[h].ttl / 3 * 2 + 2 * delay < s.handles[h].ttl / 1_000_000 * 1_000_000
  {
    if Interval(s.handles[h].ttl) + 2 * delay < Millis(s.handles[h].ttl) * MILLISECOND {
      forall rounds | Admissible(s, rounds, h, delay)
        ensures UnbrokenRounds(s, rounds, h)
      {
        RoundsRenew(s, rounds, h);
      }
    } else {
      assert Matches(s, s.handles[h]);
      var rounds := SlowRound(s, h, delay);
      assert Admissible(s, rounds, h, delay);
    }
  }

  /** A round in which nobody else does anything and every delay is `delay`. */
  function PlainRound(ttl: int, delay: nat): Round
    requires ttl > 0
  {
    Round(delay, delay, [Tick(delay + Interval(ttl))], [Tick(delay)])
  }

  lemma RunOfOne(s: State, step: Step)
    ensures Run(s, [step]) == Do(s, step) && FreshOwner(s, step) == FreshOwners(s, [step])
    ensures Elapsed([step]) == if step.Tick? then step.duration else 0
  {
    assert [step][1..] == [];
    assert Run(Do(s, step), [step][1..]) == Do(s, step);
  }

  lemma PlainRoundRuns(s: State, h: nat, delay: nat) returns (sent: State, arrived: State)
    requires Inv(s) && h < |s.handles|
    ensures s.handles[h].ttl > 0
    ensures var r := PlainRound(s.handles[h].ttl, delay);
      && sent == Do(Run(s, r.waiting), SendExtend(h)) && arrived == Run(sent, r.travelling)
      && Admissible(s, [r], h, delay)
    ensures Inv(sent) && Inv(arrived) && arrived.handles == s.handles
    ensures arrived.now == s.now + Interval(s.handles[h].ttl) + 2 * delay
    ensures !s.handles[h].released ==> ExtendOf(h) in arrived.flight
  {
    assert Matches(s, s.handles[h]);
    var r := PlainRound(s.handles[h].ttl, delay);
    var fired := Do(s, r.waiting[0]);
    RunOfOne(s, r.waiting[0]);
    StepKeepsInv(s, r.waiting[0]);
    sent := Do(fired, SendExtend(h));
    StepKeepsInv(fired, SendExtend(h));
    arrived := Do(sent, r.travelling[0]);
    RunOfOne(sent, r.travelling[0]);
    StepKeepsInv(sent, r.travelling[0]);
    assert FreshRounds(Do(arrived, Deliver(ExtendOf(h))), [r][1..], h);
    assert FreshRounds(s, [r], h);
  }

  /** A round as slow as `delay` allows breaks the lease: on the way, or when its extension ends a short one. */
  lemma SlowRound(s: State, h: nat, delay: nat) returns (rounds: seq<Round>)
    requires Inv(s) && Leased(s, h)
    requires s.handles[h].leaseEnd == s.now + SetMillis(s.handles[h].ttl) * MILLISECOND
    requires Interval(s.handles[h].ttl) + 2 * delay >= Millis(s.handles[h].ttl) * MILLISECOND
    ensures Admissible(s, rounds, h, delay) && !UnbrokenRounds(s, rounds, h)
  {
    var sent, arrived := PlainRoundRuns(s, h, delay);
    var r := PlainRound(s.handles[h].ttl, delay);
    rounds := [r];
    var t := Do(arrived, Deliver(ExtendOf(h)));
    if Millis(s.handles[h].ttl) == 0 {
      ExtensionEndsShortLease(arrived, h);
      assert !UnbrokenRounds(t, rounds[1..], h);
    } else {
      LapsedIsBroken(sent, r.travelling, h);
    }
  }

  lemma {:induction false} LapsedIsBroken(s: State, steps: seq<Step>, h: nat)
    requires !Leased(Run(s, steps), h)
    ensures !Unbroken(s, steps, h)
    decreases |steps|
  {
    if steps != [] {
      LapsedIsBroken(Do(s, steps[0]), steps[1..], h);
    }
  }

  /** A granted acquisition starts with the lease that automatic extension begins with, for every time to live. */
  lemma AcquisitionStartsFullLease(s: State, resource: string, owner: string, ttl: int)
    requires Inv(s) && FreshOwner(s, Acquire(resource, owner, ttl))
    requires ttl > 0 && !Held(s.store, s.now, resource)
    ensures var t := Do(s, Acquire(resource, owner, ttl)); var h := |s.handles|;
      Inv(t) && Leased(t, h) && t.handles[h].leaseEnd == t.now + SetMillis(t.handles[h].ttl) * MILLISECOND
  {
    StepKeepsInv(s, Acquire(resource, owner, ttl));
  }
}

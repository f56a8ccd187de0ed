/**
  The Redis lease lock (pkg/distribute/locker.go): the server's three commands, the client
  handle, and acquisition with retries.

  Time is the server's clock in nanoseconds. An entry whose expiry has been reached is dead: it
  stays in the map, and every command treats it as missing.
 */
module LeaseLock {
  import opened Wrappers

  const MILLISECOND: int := 1_000_000
  const MIN_BACKOFF: int := 10 * MILLISECOND

  datatype Entry = Entry(owner: string, expiry: int)

  type Store = map<string, Entry>

  predicate Held(store: Store, now: int, resource: string) {
    resource in store && now < store[resource].expiry
  }

  predicate HeldBy(store: Store, now: int, resource: string, owner: string) {
    Held(store, now, resource) && store[resource].owner == owner
  }

  /** A time to live in the whole milliseconds that the refresh script is given. */
  function Millis(ttl: int): int
    requires ttl > 0
  {
    ttl / MILLISECOND
  }

  /** SET with PX never takes less than one millisecond. */
  function SetMillis(ttl: int): int
    requires ttl > 0
  {
    if Millis(ttl) < 1 then 1 else Millis(ttl)
  }

  /** `SET resource owner NX PX`. */
  function SetNX(store: Store, now: int, resource: string, owner: string, ttl: int): (Store, bool)
    requires ttl > 0
  {
    if Held(store, now, resource) then (store, false)
    else (store[resource := Entry(owner, now + SetMillis(ttl) * MILLISECOND)], true)
  }

  /** The script that compares the owner and then sets the time to live; 0 milliseconds expire at once. */
  function Refresh(store: Store, now: int, resource: string, owner: string, millis: int): (Store, bool) {
    if HeldBy(store, now, resource, owner)
    then (store[resource := Entry(owner, now + millis * MILLISECOND)], true)
    else (store, false)
  }

  /** The script that compares the owner and then deletes the key. */
  function Release(store: Store, now: int, resource: string, owner: string): (Store, bool) {
    if HeldBy(store, now, resource, owner) then (store - {resource}, true) else (store, false)
  }

  // ---------------------------------------------------------------- how long a lease lasts

  /**
    A granted SET lasts for the time to live, in nanoseconds, cut down to whole milliseconds, and
    for one millisecond where that would be none. The key is held for exactly that long.
   */
  lemma SetLastsTtl(store: Store, now: int, resource: string, owner: string, ttl: int)
    requires ttl > 0 && SetNX(store, now, resource, owner, ttl).1
    ensures var after := SetNX(store, now, resource, owner, ttl).0;
      && after == store[resource := Entry(owner, after[resource].expiry)]
      && var length := after[resource].expiry - now;
      && length % 1_000_000 == 0
      && (ttl >= 1_000_000 ==> ttl - 1_000_000 < length <= ttl)
      && (ttl < 1_000_000 ==> length == 1_000_000)
      && forall t :: Held(after, t, resource) <==> t - now < length
  {
    WholeMillis(ttl);
  }

  /** A successful extension lasts as long again; below one millisecond it ends the lease at once. */
  lemma RefreshLastsTtl(store: Store, now: int, resource: string, owner: string, ttl: int)
    requires ttl > 0 && Refresh(store, now, resource, owner, Millis(ttl)).1
    ensures var after := Refresh(store, now, resource, owner, Millis(ttl)).0;
      && after == store[resource := Entry(owner, after[resource].expiry)]
      && var length := after[resource].expiry - now;
      && length % 1_000_000 == 0 && ttl - 1_000_000 < length <= ttl
      && (ttl < 1_000_000 ==> length == 0)
      && forall t :: Held(after, t, resource) <==> t - now < length
  {
    WholeMillis(ttl);
  }

  lemma WholeMillis(ttl: int)
    requires ttl > 0
    ensures var m := Millis(ttl) * 1_000_000; m % 1_000_000 == 0 && ttl - 1_000_000 < m <= ttl && (ttl < 1_000_000 ==> m == 0)
  {
  }

  // ---------------------------------------------------------------- options

  datatype Options = Options(resource: string, owner: string, ttl: int, lockTimeout: int, autoExtend: bool)

  /** Unicode's white space, which `strings.TrimSpace` takes off. */
  predicate IsSpace(c: char) {
    || c == ' ' || '\t' <= c <= '\r' || c == '\U{85}' || c == '\U{A0}' || c == '\U{1680}'
    || '\U{2000}' <= c <= '\U{200A}' || c == '\U{2028}' || c == '\U{2029}' || c == '\U{202F}'
    || c == '\U{205F}' || c == '\U{3000}'
  }

  function TrimLeft(s: string): string {
    if s != [] && IsSpace(s[0]) then TrimLeft(s[1..]) else s
  }

  function TrimRight(s: string): string {
    if s != [] && IsSpace(s[|s| - 1]) then TrimRight(s[..|s| - 1]) else s
  }

  /** `mergeOptions`: fills in the locker's defaults, and a new UUID where no owner is left after trimming. */
  function Merge(opt: Options, defaultTtl: int, defaultTimeout: int, uuid: string): Options {
    var owner := TrimRight(TrimLeft(opt.owner));
    opt.(ttl := if opt.ttl <= 0 then defaultTtl else opt.ttl,
         lockTimeout := if opt.lockTimeout <= 0 then defaultTimeout else opt.lockTimeout,
         owner := if owner == [] then uuid else owner)
  }

  // ---------------------------------------------------------------- server and client objects

  /** What becomes of a call: answered, lost on the way there or on the way back, or never made by a closed locker. */
  datatype Fate = Answered | LostBefore | LostAfter | NoClient {
    /** Whether the server carries the call out; a lost answer does not undo it. */
    predicate Arrives(): (arrives: bool)
      ensures arrives <==> this != LostBefore && this != NoClient
    {
      Answered? || LostAfter?
    }
  }

  class Redis {
    var now: int
    var store: Store

    constructor (now: int)
      ensures this.now == now && store == map[]
    {
      this.now, store := now, map[];
    }

    method Set(resource: string, owner: string, ttl: int, fate: Fate) returns (ok: bool, error: bool)
      requires ttl > 0
      modifies this`store
      ensures error <==> !fate.Answered?
      ensures !error ==> (store, ok) == SetNX(old(store), now, resource, owner, ttl)
      ensures store == if fate.Arrives() then SetNX(old(store), now, resource, owner, ttl).0 else old(store)
    {
      error := !fate.Answered?;
      ok := !Held(store, now, resource);
      if ok && fate.Arrives() {
        store := store[resource := Entry(owner, now + SetMillis(ttl) * MILLISECOND)];
      }
    }

    method RunRefresh(resource: string, owner: string, millis: int, fate: Fate) returns (status: int, error: bool)
      modifies this`store
      ensures error <==> !fate.Answered?
      ensures !error ==> (store, status == 1) == Refresh(old(store), now, resource, owner, millis)
      ensures store == if fate.Arrives() then Refresh(old(store), now, resource, owner, millis).0 else old(store)
    {
      error, status := !fate.Answered?, 0;
      if fate.Arrives() && HeldBy(store, now, resource, owner) {
        store := store[resource := Entry(owner, now + millis * MILLISECOND)];
        status := 1;
      }
    }

    method RunRelease(resource: string, owner: string, fate: Fate) returns (status: int, error: bool)
      modifies this`store
      ensures error <==> !fate.Answered?
      ensures !error ==> (store, status == 1) == Release(old(store), now, resource, owner)
      ensures store == if fate.Arrives() then Release(old(store), now, resource, owner).0 else old(store)
    {
      error, status := !fate.Answered?, 0;
      if fate.Arrives() && HeldBy(store, now, resource, owner) {
        store := store - {resource};
        status := 1;
      }
    }

    /** Other clients may do anything to the store while time passes. */
    method Elapse(duration: nat, others: Store)
      modifies this
      ensures now == old(now) + duration && store == others
    {
      now, store := now + duration, others;
    }
  }

  /** The entry of the resource lives for the time to live in whole milliseconds, and for at least one. */
  predicate Lasts(store: Store, now: int, resource: string, ttl: int): (lasts: bool)
    requires ttl > 0
    ensures lasts ==> resource in store
    ensures lasts && ttl >= 1_000_000 ==> ttl - 1_000_000 < store[resource].expiry - now <= ttl
    ensures lasts && ttl < 1_000_000 ==> store[resource].expiry - now == 1_000_000
    ensures lasts ==> (store[resource].expiry - now) % 1_000_000 == 0
  {
    resource in store
    && var length := store[resource].expiry - now;
    && length % 1_000_000 == 0
    && if ttl < 1_000_000 then length == 1_000_000 else ttl - 1_000_000 < length <= ttl
  }

  datatype Status = Ok | NotHeld | CallFailed

  /** What a call of `Unlock` leaves of the store, and what it reports. */
  function Unlocked(released: bool, store: Store, now: int, resource: string, owner: string, fate: Fate): (Store, Status) {
    if released then (store, Ok)
    else
      (if fate.Arrives() then Release(store, now, resource, owner).0 else store,
       if !fate.Answered? then CallFailed else if HeldBy(store, now, resource, owner) then Ok else NotHeld)
  }

  /** A handle on an acquired lock. */
  class Lock {
    const client: Redis
    const resource: string
    const owner: string
    const ttl: int
    var released: bool
    var autoExtending: bool

    constructor (client: Redis, resource: string, owner: string, ttl: int, autoExtending: bool)
      ensures this.client == client && this.resource == resource && this.owner == owner && this.ttl == ttl
      ensures !released && this.autoExtending == autoExtending
    {
      this.client, this.resource, this.owner, this.ttl := client, resource, owner, ttl;
      released, this.autoExtending := false, autoExtending;
    }

    /** Fails, and leaves the store alone, unless the handle is unreleased and its entry is alive. */
    method Extend(fate: Fate) returns (status: Status)
      requires ttl > 0
      modifies client`store
      ensures status == if released then NotHeld
                        else if !fate.Answered? then CallFailed
                        else if HeldBy(old(client.store), client.now, resource, owner) then Ok
                        else NotHeld
      ensures client.store == if released || !fate.Arrives() then old(client.store)
                              else Refresh(old(client.store), client.now, resource, owner, Millis(ttl)).0
      ensures status.Ok? ==> var length := client.store[resource].expiry - client.now;
        length % 1_000_000 == 0 && ttl - 1_000_000 < length <= ttl && (ttl < 1_000_000 ==> length == 0)
    {
      WholeMillis(ttl);
      if released {
        return NotHeld;
      }
      var reply, error := client.RunRefresh(resource, owner, Millis(ttl), fate);
      if error {
        return CallFailed;
      } else if reply == 1 {
        return Ok;
      }
      return NotHeld;
    }

    /**
      The first call reports whether the lease was still there to delete. The handle counts as
      released whatever becomes of the call, so a second one does nothing, even after a failure.
     */
    method Unlock(fate: Fate) returns (status: Status)
      modifies this`released, this`autoExtending, client`store
      ensures released && !autoExtending
      ensures (client.store, status) == Unlocked(old(released), old(client.store), client.now, resource, owner, fate)
    {
      autoExtending := false;
      if released {
        return Ok;
      }
      released := true;
      var reply, error := client.RunRelease(resource, owner, fate);
      if error {
        return CallFailed;
      } else if reply != 1 {
        return NotHeld;
      }
      return Ok;
    }
  }

  // ---------------------------------------------------------------- unlocking again

  /** One call is truthful, so that success means the lease is gone, exactly when it is no repeat on a lease that stands. */
  lemma SuccessIsTrueExactly(released: bool, store: Store, now: int, resource: string, owner: string, fate: Fate)
    ensures var (after, status) := Unlocked(released, store, now, resource, owner, fate);
      (status == Ok ==> !HeldBy(after, now, resource, owner)) <==> !(released && HeldBy(store, now, resource, owner))
  {
  }

  /** A second call reports success whatever became of the first; the lease still stands exactly if the first did not arrive. */
  method UnlockTwice(lock: Lock, first: Fate, second: Fate) returns (one: Status, two: Status)
    requires !lock.released
    modifies lock`released, lock`autoExtending, lock.client`store
    ensures two == Ok
    ensures HeldBy(lock.client.store, lock.client.now, lock.resource, lock.owner) <==>
            HeldBy(old(lock.client.store), lock.client.now, lock.resource, lock.owner) && !first.Arrives()
  {
    one := lock.Unlock(first);
    two := lock.Unlock(second);
  }

  /** A handle's calls of `Unlock`, one after the other, and what each reports. */
  function UnlockAll(released: bool, store: Store, now: int, resource: string, owner: string, fates: seq<Fate>): (Store, seq<Status>)
    decreases |fates|
  {
    if fates == [] then (store, [])
    else
      var (next, status) := Unlocked(released, store, now, resource, owner, fates[0]);
      var (after, rest) := UnlockAll(true, next, now, resource, owner, fates[1..]);
      (after, [status] + rest)
  }

  lemma {:induction false} RepeatsSucceed(store: Store, now: int, resource: string, owner: string, fates: seq<Fate>)
    ensures var (after, statuses) := UnlockAll(true, store, now, resource, owner, fates);
      after == store && |statuses| == |fates| && forall k | 0 <= k < |statuses| :: statuses[k] == Ok
    decreases |fates|
  {
    if fates != [] {
      RepeatsSucceed(store, now, resource, owner, fates[1..]);
    }
  }

  /**
    However often a handle is unlocked, only its first call counts: every later one reports
    success, and these reports are true if and only if the first call arrived or there was no
    lease to delete.
   */
  lemma UnlocksAreTrueExactly(store: Store, now: int, resource: string, owner: string, fates: seq<Fate>)
    requires fates != []
    ensures var (after, statuses) := UnlockAll(false, store, now, resource, owner, fates);
      && |statuses| == |fates| && (forall k | 0 < k < |statuses| :: statuses[k] == Ok)
      && (!HeldBy(after, now, resource, owner) <==> fates[0].Arrives() || !HeldBy(store, now, resource, owner))
  {
    var (next, status) := Unlocked(false, store, now, resource, owner, fates[0]);
    RepeatsSucceed(next, now, resource, owner, fates[1..]);
  }

  /** A call that is lost on its way, and a second one that reports success on a lease that still stands. */
  lemma LostUnlockThenSuccess()
    ensures var store := map["r" := Entry("me", 100)];
      && UnlockAll(false, store, 0, "r", "me", [LostBefore, Answered]) == (store, [CallFailed, Ok])
      && HeldBy(store, 0, "r", "me")
  {
    var store := map["r" := Entry("me", 100)];
    UnlockFirst(true, store, 0, "r", "me", Answered, []);
    UnlockFirst(false, store, 0, "r", "me", LostBefore, [Answered]);
    assert [Answered] + [] == [Answered] && [LostBefore] + [Answered] == [LostBefore, Answered];
    assert [Ok] + [] == [Ok] && [CallFailed] + [Ok] == [CallFailed, Ok];
  }

  lemma UnlockFirst(released: bool, store: Store, now: int, resource: string, owner: string, fate: Fate, rest: seq<Fate>)
    ensures var (next, status) := Unlocked(released, store, now, resource, owner, fate);
      var (after, statuses) := UnlockAll(true, next, now, resource, owner, rest);
      UnlockAll(released, store, now, resource, owner, [fate] + rest) == (after, [status] + statuses)
  {
    assert ([fate] + rest)[1..] == rest;
  }

  // ---------------------------------------------------------------- acquiring with retries

  /** What attempt k of a retried acquisition meets: the store, whatever others made of it, and the fate of its call. */
  datatype Attempt = Attempt(store: Store, fate: Fate)

  /** How a retried acquisition ends. */
  datatype End = Granted | TimedOut | Failed

  /** A retry strategy: the answers of its successive calls, and the one it repeats after those. */
  datatype Strategy = Strategy(first: seq<int>, last: int) {
    function Answers(): nat -> int {
      var strategy := this;
      (k: nat) => if k < |strategy.first| then strategy.first[k] else strategy.last
    }
  }

  /** `LinearRetryStrategy`. */
  function Linear(pause: int): Strategy {
    Strategy([], pause)
  }

  lemma AnswersInOrder(strategy: Strategy, k: nat)
    ensures strategy.Answers()(k) == if k < |strategy.first| then strategy.first[k] else strategy.last
  {
  }

  /** A linear strategy makes its attempts evenly, at its own pause but no closer than 10 ms. */
  lemma {:induction false} LinearTicks(start: int, pause: int, k: nat)
    ensures AttemptTime(start, Linear(pause).Answers(), k) == start + k * (if pause > 10_000_000 then pause else 10_000_000)
  {
    if k > 0 {
      LinearTicks(start, pause, k - 1);
    }
  }

  function Pause(backoff: int): int {
    if backoff > MIN_BACKOFF then backoff else MIN_BACKOFF
  }

  /** When attempt k of a retried acquisition is made; `backoff(k)` is the retry strategy's k-th answer. */
  function AttemptTime(start: int, backoff: nat -> int, k: nat): int {
    if k == 0 then start else AttemptTime(start, backoff, k - 1) + Pause(backoff(k - 1))
  }

  /** From one attempt to the next it waits as long as the strategy answers, but at least 10 ms. */
  lemma NextAttemptWaits(start: int, backoff: nat -> int, k: nat)
    ensures AttemptTime(start, backoff, 0) == start
    ensures var pause := AttemptTime(start, backoff, k + 1) - AttemptTime(start, backoff, k);
      pause == if backoff(k) > 10_000_000 then backoff(k) else 10_000_000
  {
  }

  /** The first n attempts fall before the deadline, and each one was answered and met a held key. */
  ghost predicate Refused(start: int, backoff: nat -> int, world: nat -> Attempt, resource: string, deadline: int, n: nat) {
    forall k | 0 <= k < n ::
      && AttemptTime(start, backoff, k) < deadline
      && world(k).fate.Answered? && Held(world(k).store, AttemptTime(start, backoff, k), resource)
  }

  lemma OneMoreRefused(start: int, backoff: nat -> int, world: nat -> Attempt, resource: string, deadline: int, n: nat)
    requires Refused(start, backoff, world, resource, deadline, n) && AttemptTime(start, backoff, n) < deadline
    requires world(n).fate.Answered? && Held(world(n).store, AttemptTime(start, backoff, n), resource)
    ensures Refused(start, backoff, world, resource, deadline, n + 1)
    ensures AttemptTime(start, backoff, n + 1) == AttemptTime(start, backoff, n) + Pause(backoff(n))
  {
  }

  /** However short a back-off the strategy asks for, the attempts are at least 10 ms apart. */
  lemma {:induction false} AttemptsAreSpaced(start: int, backoff: nat -> int, j: nat, k: nat)
    requires j <= k
    ensures AttemptTime(start, backoff, k) >= AttemptTime(start, backoff, j) + (k - j) * MIN_BACKOFF
    decreases k - j
  {
    if j < k {
      AttemptsAreSpaced(start, backoff, j, k - 1);
    }
  }

  /**
    How a retried acquisition ends after `refusals` attempts that met a held key. It gives up at
    the deadline; a call that fails, or a closed locker, ends it at once; and otherwise one more
    attempt, the first that met a free key, is granted.
   */
  ghost predicate Ends(start: int, backoff: nat -> int, world: nat -> Attempt, resource: string, deadline: int,
                       refusals: nat, end: End) {
    var now := AttemptTime(start, backoff, refusals);
    var fate := world(refusals).fate;
    && Refused(start, backoff, world, resource, deadline, refusals)
    && end == (if refusals > 0 && now >= deadline then TimedOut
               else if fate.NoClient? then Failed
               else if now >= deadline then TimedOut
               else if fate.Answered? then Granted
               else Failed)
    && (end.Granted? ==> !Held(world(refusals).store, now, resource))
  }

  /** A last attempt, granted or failed on its way, comes on top of the refused ones. */
  function AttemptsMade(world: nat -> Attempt, refusals: nat, end: End): nat {
    if end.TimedOut? || world(refusals).fate.NoClient? then refusals else refusals + 1
  }

  /**
    Attempt k is made if and only if its time comes before the deadline, the locker is still open,
    and all earlier attempts were answered and met a held key.
   */
  lemma AttemptIsMadeExactly(start: int, backoff: nat -> int, world: nat -> Attempt, resource: string, deadline: int,
                             refusals: nat, end: End, k: nat)
    requires Ends(start, backoff, world, resource, deadline, refusals, end)
    ensures k < AttemptsMade(world, refusals, end) <==>
            AttemptTime(start, backoff, k) < deadline && !world(k).fate.NoClient?
            && forall j | 0 <= j < k :: world(j).fate.Answered? && Held(world(j).store, AttemptTime(start, backoff, j), resource)
  {
    if k < refusals {
      assert AttemptTime(start, backoff, k) < deadline;
    } else if k > refusals {
      LaterAttemptIsLater(start, backoff, refusals, k);
      if !end.TimedOut? {
        assert !world(refusals).fate.Answered? || !Held(world(refusals).store, AttemptTime(start, backoff, refusals), resource);
      }
    }
  }

  lemma LaterAttemptIsLater(start: int, backoff: nat -> int, j: nat, k: nat)
    requires j <= k
    ensures AttemptTime(start, backoff, k) >= AttemptTime(start, backoff, j)
  {
    AttemptsAreSpaced(start, backoff, j, k);
  }

  /** A strategy that never asks for more than 10 ms is answered every 10 ms. */
  lemma {:induction false} ShortBackoffsTick(start: int, backoff: nat -> int, k: nat)
    requires forall j: nat | j < k :: backoff(j) <= MIN_BACKOFF
    ensures AttemptTime(start, backoff, k) == start + k * MIN_BACKOFF
  {
    if k > 0 {
      ShortBackoffsTick(start, backoff, k - 1);
    }
  }

  /**
    "Only once" is kept exactly when it has to be: a strategy that asks for no pause makes a
    second attempt unless the first is granted or fails, or the time is up within 10 ms, or the
    locker is closed in between.
   */
  lemma OneAttemptExactly(start: int, backoff: nat -> int, world: nat -> Attempt, resource: string, deadline: int,
                          refusals: nat, end: End)
    requires deadline > start && backoff(0) <= MIN_BACKOFF && !world(0).fate.NoClient?
    requires Ends(start, backoff, world, resource, deadline, refusals, end)
    ensures AttemptsMade(world, refusals, end) == 1 <==>
            !world(0).fate.Answered? || !Held(world(0).store, start, resource)
            || deadline - start <= MIN_BACKOFF || world(1).fate.NoClient?
  {
    AttemptIsMadeExactly(start, backoff, world, resource, deadline, refusals, end, 0);
    AttemptIsMadeExactly(start, backoff, world, resource, deadline, refusals, end, 1);
  }

  /** `NoRetry`: every answer is a pause of 0. */
  const NO_RETRY: nat -> int := Linear(0).Answers()

  const DEFAULT_TIMEOUT: int := 60_000 * MILLISECOND

  /** Every call is answered, and somebody else keeps the key for a minute. */
  function Busy(k: nat): Attempt {
    Attempt(map["" := Entry("other", DEFAULT_TIMEOUT)], Answered)
  }

  /** The strategy that is meant to try once tries 6000 times while the key is taken, under the default timeout. */
  lemma NoRetryRetries(refusals: nat, end: End)
    ensures Ends(0, NO_RETRY, Busy, "", DEFAULT_TIMEOUT, refusals, end) <==> refusals == 6000 && end == TimedOut
  {
    forall k: nat
      ensures AttemptTime(0, NO_RETRY, k) < DEFAULT_TIMEOUT <==> k < 6000
      ensures Held(Busy(k).store, AttemptTime(0, NO_RETRY, k), "") <==> k < 6000
    {
      ShortBackoffsTick(0, NO_RETRY, k);
    }
    NoRetryEnds(refusals, end);
  }

  lemma NoRetryEnds(refusals: nat, end: End)
    requires forall k: nat :: AttemptTime(0, NO_RETRY, k) < DEFAULT_TIMEOUT <==> k < 6000
    requires forall k: nat :: Held(Busy(k).store, AttemptTime(0, NO_RETRY, k), "") <==> k < 6000
    ensures Ends(0, NO_RETRY, Busy, "", DEFAULT_TIMEOUT, refusals, end) <==> refusals == 6000 && end == TimedOut
  {
    if refusals > 6000 {
      assert !(AttemptTime(0, NO_RETRY, 6000) < DEFAULT_TIMEOUT);
    }
  }

  class Locker {
    const client: Redis
    const defaultTtl: int
    const defaultLockTimeout: int
    const defaultStrategy: Strategy

    ghost predicate Valid() {
      defaultTtl > 0 && defaultLockTimeout > 0
    }

    constructor (client: Redis, defaultTtl: int, defaultLockTimeout: int, strategy: Option<Strategy>)
      ensures Valid() && this.client == client
      ensures this.defaultTtl == if defaultTtl <= 0 then 8_000 * MILLISECOND else defaultTtl
      ensures this.defaultLockTimeout == if defaultLockTimeout <= 0 then DEFAULT_TIMEOUT else defaultLockTimeout
      ensures this.defaultStrategy == if strategy.Some? then strategy.value else Linear(100 * MILLISECOND)
    {
      this.client := client;
      this.defaultTtl := if defaultTtl <= 0 then 8_000 * MILLISECOND else defaultTtl;
      this.defaultLockTimeout := if defaultLockTimeout <= 0 then DEFAULT_TIMEOUT else defaultLockTimeout;
      this.defaultStrategy := if strategy.Some? then strategy.value else Linear(100 * MILLISECOND);
    }

    /** `NewLocker`: null when the server does not answer the ping. */
    static method Connect(client: Redis, ping: Fate, defaultTtl: int, defaultLockTimeout: int, strategy: Option<Strategy>)
      returns (locker: Locker?)
      ensures locker != null <==> ping.Answered?
      ensures locker != null ==> fresh(locker) && locker.Valid() && locker.client == client
    {
      if !ping.Answered? {
        return null;
      }
      locker := new Locker(client, defaultTtl, defaultLockTimeout, strategy);
    }

    /** `SetNX` with the merged options, and a handle when it is granted: the step that both calls share. */
    method SetAndGrant(opt: Options, uuid: string, fate: Fate) returns (lock: Lock?, error: bool)
      requires Valid()
      modifies client`store
      ensures error <==> !fate.Answered?
      ensures lock != null <==> !error && !Held(old(client.store), client.now, opt.resource)
      ensures client.store == AfterCall(old(client.store), opt, uuid, fate)
      ensures lock != null ==> fresh(lock) && IsGranted(lock, old(client.store), opt, uuid)
      ensures lock != null ==> Lasts(client.store, client.now, opt.resource, if opt.ttl > 0 then opt.ttl else defaultTtl)
    {
      WholeMillis(if opt.ttl > 0 then opt.ttl else defaultTtl);
      var o := Merge(opt, defaultTtl, defaultLockTimeout, uuid);
      var ok;
      ok, error := client.Set(o.resource, o.owner, o.ttl, fate);
      if !ok || error {
        return null, error;
      }
      lock := new Lock(client, o.resource, o.owner, o.ttl, o.autoExtend);
    }

    /** The store after the call; one that is lost on its way back has taken the key for nobody. */
    ghost function AfterCall(before: Store, opt: Options, uuid: string, fate: Fate): Store
      requires Valid()
      reads client
    {
      var o := Merge(opt, defaultTtl, defaultLockTimeout, uuid);
      if fate.Arrives() then SetNX(before, client.now, o.resource, o.owner, o.ttl).0 else before
    }

    /**
      One attempt; null when somebody holds the key, or with an error. The key is the one in the
      options: the `resource` argument is never looked at.
     */
    method TryLock(resource: string, opt: Options, uuid: string, fate: Fate) returns (lock: Lock?, error: bool)
      requires Valid()
      modifies client`store
      ensures error <==> !fate.Answered?
      ensures !error ==>
        (client.store, lock != null) == TryOnce(old(client.store), client.now, resource, opt, defaultTtl, uuid)
      ensures error ==> lock == null && client.store == AfterCall(old(client.store), opt, uuid, fate)
      ensures lock != null <==> !error && !Held(old(client.store), client.now, opt.resource)
      ensures lock != null ==> fresh(lock) && IsGranted(lock, old(client.store), opt, uuid)
      ensures lock != null ==> Lasts(client.store, client.now, opt.resource, if opt.ttl > 0 then opt.ttl else defaultTtl)
    {
      if fate.NoClient? {
        return null, true;
      }
      lock, error := SetAndGrant(opt, uuid, fate);
    }

    ghost predicate IsGranted(lock: Lock, before: Store, opt: Options, uuid: string)
      requires Valid()
      reads lock, client
    {
      var o := Merge(opt, defaultTtl, defaultLockTimeout, uuid);
      && lock.client == client && lock.resource == opt.resource && lock.owner == o.owner && lock.ttl == o.ttl
      && !lock.released && lock.autoExtending == opt.autoExtend
      && !Held(before, client.now, opt.resource)
      && client.store == before[opt.resource := Entry(o.owner, client.now + SetMillis(o.ttl) * MILLISECOND)]
    }

    /**
      `Lock`: attempts until one is granted or fails, or until the deadline cuts the back-off
      short. `limit` is when the caller's own context ends, run out or cancelled.
     */
    method Acquire(resource: string, opt: Options, uuid: string, limit: int, strategy: Option<Strategy>, world: nat -> Attempt)
      returns (lock: Lock?, end: End, ghost refusals: nat)
      requires Valid() && client.store == world(0).store
      modifies client
      ensures Ends(old(client.now), Backoff(strategy), world, opt.resource, Deadline(old(client.now), opt, uuid, limit), refusals, end)
      ensures lock != null <==> end.Granted?
      ensures !end.TimedOut? ==> client.now == AttemptTime(old(client.now), Backoff(strategy), refusals)
      ensures end.Failed? ==> client.store == AfterCall(world(refusals).store, opt, uuid, world(refusals).fate)
      ensures lock != null ==> fresh(lock) && IsGranted(lock, world(refusals).store, opt, uuid)
      ensures lock != null ==> Lasts(client.store, client.now, opt.resource, if opt.ttl > 0 then opt.ttl else defaultTtl)
    {
      var start, backoff := client.now, Backoff(strategy);
      var deadline := Deadline(start, opt, uuid, limit);
      var k := 0;
      refusals := 0;
      while true
        invariant refusals == k && client.store == world(k).store
        invariant client.now == AttemptTime(start, backoff, k) && (k > 0 ==> client.now < deadline)
        invariant Refused(start, backoff, world, opt.resource, deadline, k)
        decreases deadline - client.now
      {
        if world(k).fate.NoClient? {
          return null, Failed, refusals;
        }
        if client.now >= deadline {
          return null, TimedOut, refusals;
        }
        var error;
        lock, error := SetAndGrant(opt, uuid, world(k).fate);
        if error {
          return null, Failed, refusals;
        } else if lock != null {
          return lock, Granted, refusals;
        }
        OneMoreRefused(start, backoff, world, opt.resource, deadline, k);
        refusals := k + 1;
        var pause := Pause(backoff(k));
        if client.now + pause >= deadline {
          return null, TimedOut, refusals;
        }
        client.Elapse(pause, world(k + 1).store);
        k := k + 1;
      }
    }

    /** The call's own retry strategy, or the locker's. */
    function Backoff(strategy: Option<Strategy>): (backoff: nat -> int)
      ensures strategy.Some? ==> backoff == strategy.value.Answers()
      ensures strategy.None? ==> backoff == defaultStrategy.Answers()
    {
      if strategy.Some? then strategy.value.Answers() else defaultStrategy.Answers()
    }

    /** The lock timeout, or the end of the caller's context if that comes first. */
    function Deadline(start: int, opt: Options, uuid: string, limit: int): (deadline: int)
      ensures deadline <= limit && deadline <= start + (if opt.lockTimeout > 0 then opt.lockTimeout else defaultLockTimeout)
      ensures deadline == limit || deadline == start + (if opt.lockTimeout > 0 then opt.lockTimeout else defaultLockTimeout)
    {
      var own := start + Merge(opt, defaultTtl, defaultLockTimeout, uuid).lockTimeout;
      if limit < own then limit else own
    }
  }

  lemma {:induction false} TrimLeftRemovesSpace(s: string)
    ensures TrimLeft(s) != [] ==> !IsSpace(TrimLeft(s)[0])
    ensures |TrimLeft(s)| <= |s| && TrimLeft(s) == s[|s| - |TrimLeft(s)|..]
    ensures forall k | 0 <= k < |s| - |TrimLeft(s)| :: IsSpace(s[k])
  {
    if s != [] && IsSpace(s[0]) {
      TrimLeftRemovesSpace(s[1..]);
    }
  }

  lemma {:induction false} TrimRightRemovesSpace(s: string)
    ensures TrimRight(s) != [] ==> !IsSpace(TrimRight(s)[|TrimRight(s)| - 1])
    ensures |TrimRight(s)| <= |s| && TrimRight(s) == s[..|TrimRight(s)|]
    ensures forall k | |TrimRight(s)| <= k < |s| :: IsSpace(s[k])
  {
    if s != [] && IsSpace(s[|s| - 1]) {
      TrimRightRemovesSpace(s[..|s| - 1]);
    }
  }

  /**
    Merged options always carry a positive time to live and timeout; the owner is never empty or
    padded, and is the caller's own unless that is blank.
   */
  lemma MergedOptionsAreUsable(opt: Options, defaultTtl: int, defaultTimeout: int, uuid: string)
    requires defaultTtl > 0 && defaultTimeout > 0
    requires uuid != [] && !IsSpace(uuid[0]) && !IsSpace(uuid[|uuid| - 1])
    ensures var o := Merge(opt, defaultTtl, defaultTimeout, uuid);
      && o.ttl > 0 && o.lockTimeout > 0 && o.resource == opt.resource
      && o.owner != [] && !IsSpace(o.owner[0]) && !IsSpace(o.owner[|o.owner| - 1])
  {
    TrimLeftRemovesSpace(opt.owner);
    TrimRightRemovesSpace(TrimLeft(opt.owner));
  }

  /** What the caller sets is kept: a positive time, the resource, and an owner that is not blank, without the space around it. */
  lemma SetOptionsAreKept(opt: Options, defaultTtl: int, defaultTimeout: int, uuid: string)
    ensures var o := Merge(opt, defaultTtl, defaultTimeout, uuid);
      && o.ttl == (if opt.ttl > 0 then opt.ttl else defaultTtl)
      && o.lockTimeout == (if opt.lockTimeout > 0 then opt.lockTimeout else defaultTimeout)
      && o.resource == opt.resource && o.autoExtend == opt.autoExtend
      && (if forall k | 0 <= k < |opt.owner| :: IsSpace(opt.owner[k]) then o.owner == uuid
          else o.owner != [] && !IsSpace(o.owner[0]) && !IsSpace(o.owner[|o.owner| - 1])
               && exists i, j | 0 <= i <= j <= |opt.owner| ::
                    o.owner == opt.owner[i..j]
                    && (forall k | 0 <= k < i :: IsSpace(opt.owner[k])) && (forall k | j <= k < |opt.owner| :: IsSpace(opt.owner[k])))
  {
    BlankOwnerIsReplacedExactly(opt.owner);
    var l := TrimLeft(opt.owner);
    var r := TrimRight(l);
    TrimLeftRemovesSpace(opt.owner);
    TrimRightRemovesSpace(l);
    var i := |opt.owner| - |l|;
    var j := i + |r|;
    assert r == opt.owner[i..j];
    forall k | j <= k < |opt.owner| ensures IsSpace(opt.owner[k]) {
      assert opt.owner[k] == l[k - i];
    }
  }

  /** Space of any kind goes, and nothing else. */
  lemma TrimmedOwner()
    ensures Merge(Options("", " \t\n\r\U{A0}\U{3000}a b.\U{2003}", 0, 0, true), 1, 1, "u").owner == "a b."
  {
    var s := " \t\n\r\U{A0}\U{3000}a b.\U{2003}";
    assert TrimLeft(s[6..]) == s[6..];
    assert TrimLeft(s) == s[6..];
    assert s[6..] == "a b.\U{2003}";
    assert "a b.\U{2003}"[..4] == "a b.";
    assert TrimRight("a b.\U{2003}") == "a b.";
  }

  /** The owner is replaced by the UUID exactly when it is blank. */
  lemma BlankOwnerIsReplacedExactly(s: string)
    ensures TrimRight(TrimLeft(s)) == [] <==> forall k | 0 <= k < |s| :: IsSpace(s[k])
  {
    var l := TrimLeft(s);
    TrimLeftRemovesSpace(s);
    TrimRightRemovesSpace(l);
    if k :| 0 <= k < |s| && !IsSpace(s[k]) {
      assert l[k - (|s| - |l|)] == s[k];
    }
  }

  /** The options of a call that sets none: no option function of the package fills in the resource. */
  const NO_OPTIONS: Options := Options("", "", 0, 0, true)

  /** What an attempt on `resource` does to the store: it takes the key of the options. */
  function TryOnce(store: Store, now: int, resource: string, opt: Options, defaultTtl: int, uuid: string): (Store, bool)
    requires defaultTtl > 0
  {
    var o := Merge(opt, defaultTtl, 1, uuid);
    SetNX(store, now, o.resource, o.owner, o.ttl)
  }

  /** A granted attempt leaves the named resource held exactly when the options name it too, or it was held before. */
  lemma NamedResourceIsHeldExactly(store: Store, now: int, resource: string, opt: Options, defaultTtl: int, uuid: string)
    requires defaultTtl > 0 && TryOnce(store, now, resource, opt, defaultTtl, uuid).1
    ensures Held(TryOnce(store, now, resource, opt, defaultTtl, uuid).0, now, resource)
            <==> opt.resource == resource || Held(store, now, resource)
  {
  }

  /** Without a resource in the options all callers contend for one key, whatever resources they name. */
  lemma DifferentResourcesContend(store: Store, now: int, first: string, second: string, defaultTtl: int, a: string, b: string)
    requires defaultTtl > 0
    ensures var (after, ok) := TryOnce(store, now, first, NO_OPTIONS, defaultTtl, a);
      ok ==> !TryOnce(after, now, second, NO_OPTIONS, defaultTtl, b).1
  {
  }
}

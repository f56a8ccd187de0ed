/**
  The service object on top of the sorted set, and whole histories of score updates
  (pkg/services/ranking.go). Nobody else writes to the sorted set while a method runs.
 */
module RankingService {
  import opened Wrappers
  import opened Ranking

  /** The Redis keys of one ranking: the sorted set, and the expiry of each request key. */
  datatype Db = Db(z: seq<Item>, requests: map<string, int>)

  datatype Reply = Done | AlreadyProcessed | Rejected

  /** `SET key 0 EX seconds NX` would succeed. */
  predicate Fresh(requests: map<string, int>, now: int, request: string) {
    request !in requests || now >= requests[request]
  }

  /** The increment script, with the fraction that the caller made from the seconds left. */
  function IncrementDb(db: Db, now: int, request: string, member: string, delta: int, expiry: int, secondsLeft: int): (Db, Reply) {
    if secondsLeft < 0 || expiry <= 0 then (db, Rejected)
    else if !Fresh(db.requests, now, request) then (db, AlreadyProcessed)
    else
      var current := match ZScore(db.z, member) case Some(s) => Floor(s) case None => 0;
      var score := (current + delta) as real + Fraction(secondsLeft).value;
      (Db(ZAdd(db.z, member, score), db.requests[request := now + expiry]), Done)
  }

  /** The script that sets a score outright. */
  function UpdateDb(db: Db, now: int, request: string, member: string, score: int, expiry: int, secondsLeft: int): (Db, Reply) {
    if secondsLeft < 0 || expiry <= 0 then (db, Rejected)
    else if !Fresh(db.requests, now, request) then (db, AlreadyProcessed)
    else (Db(ZAdd(db.z, member, score as real + Fraction(secondsLeft).value), db.requests[request := now + expiry]), Done)
  }

  class Service {
    var z: seq<Item>
    var requests: map<string, int>

    ghost predicate Valid()
      reads this
    {
      IsSortedSet(z)
    }

    function Value(): Db
      reads this
    {
      Db(z, requests)
    }

    constructor ()
      ensures Valid() && Value() == Db([], map[])
    {
      z, requests := [], map[];
    }

    method RunTruncate(size: int, count: int) returns (removed: int)
      modifies this`z
      ensures (z, removed) == TruncateScript(old(z), size, count)
    {
      var doomed := RevRange(z, size, count);
      if doomed == [] {
        return 0;
      }
      var kept := ZRem(z, Members(doomed));
      removed := |z| - |kept|;
      z := kept;
    }

    /**
      Batched truncation: script runs until one removes nothing. With a positive batch size it
      ends with the result and the count of the one-shot truncation; without one it is a single run.
     */
    method Truncate(size: int, batchSize: int) returns (count: int)
      requires Valid()
      modifies this`z
      ensures Valid()
      ensures (z, count) == TruncateScript(old(z), size, if batchSize > 0 then -1 else batchSize)
      ensures batchSize == 0 || size < 0 ==> z == old(z) && count == 0
      ensures batchSize != 0 && size >= 0 ==> z == (if size < |old(z)| then old(z)[..size] else old(z)) && count == |old(z)| - |z|
    {
      ScriptCountsExactly(old(z), size, if batchSize > 0 then -1 else batchSize);
      if batchSize <= 0 {
        count := RunTruncate(size, batchSize);
        ScriptKeepsOrder(old(z), size, batchSize);
        return;
      }
      count := 0;
      while true
        invariant CanCut(old(z), size, count) && z == Cut(old(z), size, count)
        decreases |z|
      {
        BatchCuts(old(z), size, count, batchSize);
        var cnt := RunTruncate(size, batchSize);
        if cnt == 0 {
          break;
        }
        count := count + cnt;
      }
      FullCutIsOneShot(old(z), size, count);
    }

    method TruncateAll(size: int) returns (count: int)
      requires Valid()
      modifies this`z
      ensures Valid()
      ensures z == Top(old(z), size) && count == |old(z)| - |z|
      ensures z == if 0 <= size < |old(z)| then old(z)[..size] else old(z)
    {
      OneShotKeepsTop(z, size);
      count := RunTruncate(size, -1);
    }

    lemma RankOf(k: nat)
      requires k < |z|
      ensures Valid() ==> |set x | x in z && Above(x, z[k])| == k
    {
      if Valid() {
        IndexIsRank(z, k);
      }
    }

    /** The exact rank from 0, or -1 for a member that is not in the set. */
    method Rank(member: string) returns (rank: int)
      ensures rank == -1 <==> forall k | 0 <= k < |z| :: z[k].member != member
      ensures rank != -1 ==> 0 <= rank < |z| && z[rank].member == member
      ensures Valid() && rank != -1 ==> |set x | x in z && Above(x, z[rank])| == rank
    {
      for k := 0 to |z|
        invariant forall j | 0 <= j < k :: z[j].member != member
      {
        if z[k].member == member {
          RankOf(k);
          return k;
        }
      }
      return -1;
    }

    method Increment(now: int, request: string, member: string, delta: int, expiry: int, secondsLeft: int) returns (reply: Reply)
      requires Valid()
      modifies this
      ensures Valid()
      ensures (Value(), reply) == IncrementDb(old(Value()), now, request, member, delta, expiry, secondsLeft)
    {
      var frac := Fraction(secondsLeft);
      if frac.None? || expiry <= 0 {
        return Rejected;
      }
      if !Fresh(requests, now, request) {
        return AlreadyProcessed;
      }
      requests := requests[request := now + expiry];
      var integer := 0;
      var current := ZScore(z, member);
      if current.Some? {
        integer := Floor(current.value);
      }
      integer := integer + delta;
      ZAddSetsOneScore(z, member, integer as real + frac.value, member);
      z := ZAdd(z, member, integer as real + frac.value);
      return Done;
    }

    method UpdateScore(now: int, request: string, member: string, score: int, expiry: int, secondsLeft: int) returns (reply: Reply)
      requires Valid()
      modifies this
      ensures Valid()
      ensures (Value(), reply) == UpdateDb(old(Value()), now, request, member, score, expiry, secondsLeft)
    {
      var frac := Fraction(secondsLeft);
      if frac.None? || expiry <= 0 {
        return Rejected;
      }
      if !Fresh(requests, now, request) {
        return AlreadyProcessed;
      }
      requests := requests[request := now + expiry];
      ZAddSetsOneScore(z, member, score as real + frac.value, member);
      z := ZAdd(z, member, score as real + frac.value);
      return Done;
    }
  }

  /** n members can have been removed after the first `size`. */
  predicate CanCut(z: seq<Item>, size: int, n: int) {
    n == 0 || (0 < n && 0 <= size && size + n <= |z|)
  }

  function Cut(z: seq<Item>, size: int, n: int): (c: seq<Item>)
    requires CanCut(z, size, n)
    ensures |c| == |z| - n
  {
    if n == 0 then z else z[..size] + z[size + n..]
  }

  lemma CutIsSorted(z: seq<Item>, size: int, n: int)
    requires IsSortedSet(z) && CanCut(z, size, n)
    ensures IsSortedSet(Cut(z, size, n))
  {
    if n > 0 {
      CutKeepsOrder(z, size, size + n);
    }
  }

  lemma ScriptKeepsOrder(z: seq<Item>, size: int, count: int)
    requires IsSortedSet(z)
    ensures var (kept, removed) := TruncateScript(z, size, count);
      CanCut(z, size, removed) && kept == Cut(z, size, removed) && IsSortedSet(kept)
  {
    ScriptRemovesSlice(z, size, count);
    CutIsSorted(z, size, TruncateScript(z, size, count).1);
  }

  lemma CutsCompose(z: seq<Item>, size: nat, n: nat, m: nat)
    requires CanCut(z, size, n) && m > 0 && size + n + m <= |z|
    ensures Cut(Cut(z, size, n), size, m) == Cut(z, size, n + m)
  {
    if n > 0 {
      var once := Cut(z, size, n);
      assert once[..size] == z[..size];
      assert once[size + m..] == z[size + n + m..];
    }
  }

  /** One more batch widens the cut, or the cut has reached the end. */
  lemma BatchCuts(z: seq<Item>, size: int, n: int, batchSize: int)
    requires IsSortedSet(z) && CanCut(z, size, n) && batchSize > 0
    ensures var (kept, removed) := TruncateScript(Cut(z, size, n), size, batchSize);
      && 0 <= removed && CanCut(z, size, n + removed) && kept == Cut(z, size, n + removed)
      && (removed == 0 ==> size < 0 || |Cut(z, size, n)| <= size)
  {
    CutIsSorted(z, size, n);
    ScriptKeepsOrder(Cut(z, size, n), size, batchSize);
    ScriptRemovesSlice(Cut(z, size, n), size, batchSize);
    var removed := TruncateScript(Cut(z, size, n), size, batchSize).1;
    if removed > 0 {
      CutsCompose(z, size, n, removed);
    }
  }

  lemma FullCutIsOneShot(z: seq<Item>, size: int, n: int)
    requires IsSortedSet(z) && CanCut(z, size, n)
    requires size < 0 || |Cut(z, size, n)| <= size
    ensures (Cut(z, size, n), n) == TruncateScript(z, size, -1)
    ensures IsSortedSet(Cut(z, size, n))
  {
    CutIsSorted(z, size, n);
    OneShotKeepsTop(z, size);
    if n > 0 {
      assert z[..size] + z[size + n..] == z[..size];
    }
  }

  // ---------------------------------------------------------------- what one call stores

  /** A call is refused without a time that parses and a positive expiry, skipped while its key lives, and done otherwise. */
  lemma RefusedExactly(db: Db, now: int, request: string, member: string, amount: int, expiry: int, secondsLeft: int)
    ensures var live := request in db.requests && now < db.requests[request];
      var (after, reply) := IncrementDb(db, now, request, member, amount, expiry, secondsLeft);
      var (after', reply') := UpdateDb(db, now, request, member, amount, expiry, secondsLeft);
      && reply == reply' == (if secondsLeft < 0 || expiry <= 0 then Rejected else if live then AlreadyProcessed else Done)
      && (reply != Done ==> after == after' == db)
      && (reply == Done ==> after.requests == after'.requests == db.requests[request := now + expiry])
  {
  }

  lemma FractionOfSum(k: int, f: real)
    requires 0.0 <= f < 1.0
    ensures (k as real + f).Floor == k && (k as real + f) - (k as real + f).Floor as real == f
  {
  }

  /**
    What is stored: the whole part is the score, raised or set, and the part behind the point is
    made of the digits of the seconds left.
   */
  lemma StoredTimeExactly(db: Db, now: int, request: string, member: string, amount: int, expiry: int, n: nat, d: nat)
    requires IsSortedSet(db.z) && expiry > 0 && (request !in db.requests || now >= db.requests[request])
    requires n > 0 && d >= 1 && PowerOfTen(d - 1) <= n < PowerOfTen(d)
    ensures var before := ZScore(db.z, member);
      var raised := ZScore(IncrementDb(db, now, request, member, amount, expiry, n).0.z, member);
      var set_ := ZScore(UpdateDb(db, now, request, member, amount, expiry, n).0.z, member);
      && raised.Some? && set_.Some?
      && raised.value.Floor == (if before.Some? then before.value.Floor else 0) + amount
      && set_.value.Floor == amount
      && raised.value - raised.value.Floor as real == n as real / PowerOfTen(d) as real
      && set_.value - set_.value.Floor as real == n as real / PowerOfTen(d) as real
  {
    var f := n as real / PowerOfTen(d) as real;
    var before := ZScore(db.z, member);
    var base := (if before.Some? then before.value.Floor else 0) + amount;
    FractionExactly(n, d);
    DivideBelowOne(n as real, PowerOfTen(d) as real);
    FractionOfSum(base, f);
    FractionOfSum(amount, f);
    ZAddSetsOneScore(db.z, member, base as real + f, member);
    ZAddSetsOneScore(db.z, member, amount as real + f, member);
  }

  lemma CompareFractions(n: int, p: int, m: int, q: int)
    requires p > 0 && q > 0
    ensures n as real / p as real > m as real / q as real <==> n * q > m * p
  {
    var a, b := n as real / p as real, m as real / q as real;
    assert a * p as real == n as real && b * q as real == m as real;
    var c := p as real * q as real;
    assert a * c == (n * q) as real by {
      assert a * c == (a * p as real) * q as real;
    }
    assert b * c == (m * p) as real by {
      assert b * c == (b * q as real) * p as real;
    }
    assert c > 0.0;
    assert a > b <==> a * c > b * c;
  }

  /** The score that a member is given with n seconds left, d digits long. */
  ghost predicate GivenWith(score: real, whole: int, n: nat, d: nat) {
    && n > 0 && d >= 1 && PowerOfTen(d - 1) <= n < PowerOfTen(d)
    && score.Floor == whole && score - score.Floor as real == n as real / PowerOfTen(d) as real
  }

  /**
    Of two members with one whole score, the one with the greater fraction ranks above the other.
    With equally many digits that is the one with more seconds left, so the one who was there
    first; with a different number of digits it need not be.
   */
  lemma MoreTimeRanksAboveExactly(a: Item, b: Item, whole: int, n: nat, d: nat, m: nat, e: nat)
    requires GivenWith(a.score, whole, n, d) && GivenWith(b.score, whole, m, e)
    ensures a.score > b.score <==> n * PowerOfTen(e) > m * PowerOfTen(d)
    ensures a.score > b.score ==> Above(a, b)
    ensures d == e ==> (a.score > b.score <==> n > m)
  {
    CompareFractions(n, PowerOfTen(d), m, PowerOfTen(e));
    CompareFractions(m, PowerOfTen(e), n, PowerOfTen(d));
    if d == e {
      SameFactor(n, m, PowerOfTen(d));
    }
  }

  lemma SameFactor(n: int, m: int, p: int)
    requires p > 0
    ensures n * p > m * p <==> n > m
  {
  }

  /** Ten seconds left rank below nine. */
  lemma FewerDigitsRankAbove(a: Item, b: Item, whole: int)
    requires GivenWith(a.score, whole, 10, 2) && GivenWith(b.score, whole, 9, 1)
    ensures Above(b, a)
  {
    PowersOfTen(0);
    PowersOfTen(1);
    MoreTimeRanksAboveExactly(b, a, whole, 9, 1, 10, 2);
  }

  // ---------------------------------------------------------------- histories

  /** One call of Increment or UpdateScore; `expiry` is in the clock's unit. */
  datatype Op = Op(now: int, request: string, member: string, amount: int, absolute: bool, expiry: int, secondsLeft: int) {

    /** Nothing stops the call before the request key is looked at. */
    predicate WellFormed() {
      secondsLeft >= 0 && expiry > 0
    }
  }

  function Apply(db: Db, op: Op): (Db, Reply) {
    if op.absolute then UpdateDb(db, op.now, op.request, op.member, op.amount, op.expiry, op.secondsLeft)
    else IncrementDb(db, op.now, op.request, op.member, op.amount, op.expiry, op.secondsLeft)
  }

  /** The database after the first n calls. */
  function After(ops: seq<Op>, n: nat): Db
    requires n <= |ops|
  {
    if n == 0 then Db([], map[]) else Apply(After(ops, n - 1), ops[n - 1]).0
  }

  predicate Applied(ops: seq<Op>, i: nat)
    requires i < |ops|
  {
    Apply(After(ops, i), ops[i]).1.Done?
  }

  /** Call i is the first one that gets as far as its request key. */
  predicate FirstUse(ops: seq<Op>, i: nat)
    requires i < |ops|
  {
    ops[i].WellFormed() && forall j | 0 <= j < i && ops[j].WellFormed() :: ops[j].request != ops[i].request
  }

  /** Each repeated request arrives while the key of its first use still lives. */
  ghost predicate RepeatsWhileLive(ops: seq<Op>) {
    forall j, i | 0 <= j < i < |ops| && FirstUse(ops, j) && ops[i].WellFormed() && ops[i].request == ops[j].request ::
      ops[i].now < ops[j].now + ops[j].expiry
  }

  /** A key of request r that expires at `expiry` stems from a first use among the first n calls. */
  ghost predicate KeyOfFirstUse(ops: seq<Op>, n: nat, r: string, expiry: int)
    requires n <= |ops|
  {
    exists j | 0 <= j < n :: FirstUse(ops, j) && ops[j].request == r && expiry == ops[j].now + ops[j].expiry
  }

  /** The request keys are those of the first uses. */
  ghost predicate KeysOfFirstUses(ops: seq<Op>, n: nat)
    requires n <= |ops|
  {
    var keys := After(ops, n).requests;
    && (forall r | r in keys :: KeyOfFirstUse(ops, n, r, keys[r]))
    && (forall j | 0 <= j < n && ops[j].WellFormed() :: ops[j].request in keys)
  }

  lemma KeysStep(ops: seq<Op>, n: nat)
    requires 0 < n <= |ops| && KeysOfFirstUses(ops, n - 1)
    requires Applied(ops, n - 1) <==> FirstUse(ops, n - 1)
    ensures KeysOfFirstUses(ops, n)
  {
    var op := ops[n - 1];
    var before, keys := After(ops, n - 1).requests, After(ops, n).requests;
    assert keys == if Applied(ops, n - 1) then before[op.request := op.now + op.expiry] else before;
    if op.WellFormed() && !FirstUse(ops, n - 1) {
      var j :| 0 <= j < n - 1 && ops[j].WellFormed() && ops[j].request == op.request;
      assert op.request in before;
    }
    forall r | r in keys ensures KeyOfFirstUse(ops, n, r, keys[r]) {
      if r in before && keys[r] == before[r] {
        assert KeyOfFirstUse(ops, n - 1, r, before[r]);
      }
    }
  }

  lemma {:induction false} FirstUsesHoldKeys(ops: seq<Op>, n: nat)
    requires n <= |ops|
    requires forall i | 0 <= i < n :: Applied(ops, i) <==> FirstUse(ops, i)
    ensures KeysOfFirstUses(ops, n)
  {
    if n > 0 {
      FirstUsesHoldKeys(ops, n - 1);
      assert Applied(ops, n - 1) <==> FirstUse(ops, n - 1);
      KeysStep(ops, n);
    }
  }

  lemma AppliedWhenFresh(ops: seq<Op>, i: nat)
    requires i < |ops|
    ensures Applied(ops, i) <==> ops[i].WellFormed() && Fresh(After(ops, i).requests, ops[i].now, ops[i].request)
  {
  }

  lemma LiveKeysAdmitFirstUses(ops: seq<Op>, i: nat)
    requires i < |ops| && RepeatsWhileLive(ops) && KeysOfFirstUses(ops, i)
    ensures Applied(ops, i) <==> FirstUse(ops, i)
  {
    AppliedWhenFresh(ops, i);
    var op := ops[i];
    var keys := After(ops, i).requests;
    if op.WellFormed() {
      if op.request in keys {
        assert KeyOfFirstUse(ops, i, op.request, keys[op.request]);
        var j :| 0 <= j < i && FirstUse(ops, j) && ops[j].request == op.request && keys[op.request] == ops[j].now + ops[j].expiry;
        assert op.now < ops[j].now + ops[j].expiry;
      } else {
        assert FirstUse(ops, i);
      }
    }
  }

  lemma {:induction false} LiveRepeatsHoldKeys(ops: seq<Op>, n: nat)
    requires n <= |ops| && RepeatsWhileLive(ops)
    ensures KeysOfFirstUses(ops, n)
  {
    if n > 0 {
      LiveRepeatsHoldKeys(ops, n - 1);
      LiveKeysAdmitFirstUses(ops, n - 1);
      KeysStep(ops, n);
    }
  }

  lemma FirstUsesMeanLiveRepeats(ops: seq<Op>, j: nat, i: nat)
    requires j < i < |ops| && FirstUse(ops, j) && ops[i].WellFormed() && ops[i].request == ops[j].request
    requires KeysOfFirstUses(ops, i) && !Applied(ops, i)
    ensures ops[i].now < ops[j].now + ops[j].expiry
  {
    var r := ops[j].request;
    var keys := After(ops, i).requests;
    assert r in keys && KeyOfFirstUse(ops, i, r, keys[r]);
    var k :| 0 <= k < i && FirstUse(ops, k) && ops[k].request == r && keys[r] == ops[k].now + ops[k].expiry;
    assert k == j;
    AppliedWhenFresh(ops, i);
  }

  /**
    Exactly the first use of each request id is applied if and only if every repeat arrives while
    the key of that first use still lives.
   */
  lemma AppliedExactlyOnceExactly(ops: seq<Op>)
    ensures (forall i | 0 <= i < |ops| :: Applied(ops, i) <==> FirstUse(ops, i)) <==> RepeatsWhileLive(ops)
  {
    if RepeatsWhileLive(ops) {
      forall i | 0 <= i < |ops| ensures Applied(ops, i) <==> FirstUse(ops, i) {
        LiveRepeatsHoldKeys(ops, i);
        LiveKeysAdmitFirstUses(ops, i);
      }
    } else if forall i | 0 <= i < |ops| :: Applied(ops, i) <==> FirstUse(ops, i) {
      forall j, i | 0 <= j < i < |ops| && FirstUse(ops, j) && ops[i].WellFormed() && ops[i].request == ops[j].request
        ensures ops[i].now < ops[j].now + ops[j].expiry
      {
        FirstUsesHoldKeys(ops, i);
        assert !FirstUse(ops, i);
        FirstUsesMeanLiveRepeats(ops, j, i);
      }
    }
  }

  /** What a member's score should be: an integer account of the first use of each request id. */
  function Account(ops: seq<Op>, n: nat, member: string): Option<int>
    requires n <= |ops|
  {
    if n == 0 then None
    else
      var before := Account(ops, n - 1, member);
      var op := ops[n - 1];
      if !FirstUse(ops, n - 1) || op.member != member then before
      else if op.absolute || before.None? then Some(op.amount)
      else Some(before.value + op.amount)
  }

  predicate ScoreMatches(score: Option<real>, account: Option<int>) {
    match account
    case None => score.None?
    case Some(a) => score.Some? && Floor(score.value) == a
  }

  lemma FloorOfSum(a: int, f: real)
    requires 0.0 <= f < 1.0
    ensures Floor(a as real + f) == a
  {
  }

  /** What an applied call adds the fraction to. */
  function Base(z: seq<Item>, op: Op): int {
    if op.absolute then op.amount
    else (match ZScore(z, op.member) case Some(s) => Floor(s) case None => 0) + op.amount
  }

  lemma AppliedCallIsZAdd(db: Db, op: Op)
    requires op.WellFormed() && Fresh(db.requests, op.now, op.request)
    ensures Apply(db, op).0.z == ZAdd(db.z, op.member, Base(db.z, op) as real + Fraction(op.secondsLeft).value)
  {
  }

  /** One applied call moves the score and the account of its member alike, and no others. */
  lemma ApplyFollowsAccount(db: Db, op: Op, member: string, before: Option<int>, own: Option<int>)
    requires IsSortedSet(db.z) && op.WellFormed() && Fresh(db.requests, op.now, op.request)
    requires ScoreMatches(ZScore(db.z, member), before) && ScoreMatches(ZScore(db.z, op.member), own)
    ensures var z := Apply(db, op).0.z;
      && IsSortedSet(z)
      && ScoreMatches(ZScore(z, member),
                      if op.member != member then before
                      else if op.absolute || own.None? then Some(op.amount)
                      else Some(own.value + op.amount))
  {
    AppliedCallIsZAdd(db, op);
    FractionStaysBelowOne(op.secondsLeft);
    var base, f := Base(db.z, op), Fraction(op.secondsLeft).value;
    FloorOfSum(base, f);
    ZAddSetsOneScore(db.z, op.member, base as real + f, member);
    assert op.member == member ==> ZScore(Apply(db, op).0.z, member) == Some(base as real + f);
    assert op.member != member ==> ZScore(Apply(db, op).0.z, member) == ZScore(db.z, member);
  }

  lemma RejectedChangesNothing(db: Db, op: Op)
    ensures Apply(db, op).1 != Done ==> Apply(db, op).0 == db
  {
  }

  /** While repeats are live, the floor of every score is the integer account of it: no request counts twice. */
  lemma {:induction false} ScoresFollowAccounts(ops: seq<Op>, n: nat, member: string)
    requires n <= |ops| && RepeatsWhileLive(ops)
    ensures IsSortedSet(After(ops, n).z)
    ensures ScoreMatches(ZScore(After(ops, n).z, member), Account(ops, n, member))
  {
    if n > 0 {
      var op := ops[n - 1];
      var db := After(ops, n - 1);
      ScoresFollowAccounts(ops, n - 1, member);
      ScoresFollowAccounts(ops, n - 1, op.member);
      FirstUseIsFresh(ops, n - 1);
      if FirstUse(ops, n - 1) {
        ApplyFollowsAccount(db, op, member, Account(ops, n - 1, member), Account(ops, n - 1, op.member));
      } else {
        RejectedChangesNothing(db, op);
      }
    }
  }

  lemma FirstUseIsFresh(ops: seq<Op>, i: nat)
    requires i < |ops| && RepeatsWhileLive(ops)
    ensures After(ops, i + 1) == Apply(After(ops, i), ops[i]).0
    ensures FirstUse(ops, i) ==> ops[i].WellFormed() && Fresh(After(ops, i).requests, ops[i].now, ops[i].request)
    ensures !FirstUse(ops, i) ==> Apply(After(ops, i), ops[i]).1 != Done
  {
    LiveRepeatsHoldKeys(ops, i);
    LiveKeysAdmitFirstUses(ops, i);
    AppliedWhenFresh(ops, i);
  }

  /** The account of increments only is the sum of the deltas first applied to the member. */
  function SumOfFirstUses(ops: seq<Op>, n: nat, member: string): int
    requires n <= |ops|
  {
    if n == 0 then 0
    else SumOfFirstUses(ops, n - 1, member) + (if FirstUse(ops, n - 1) && ops[n - 1].member == member then ops[n - 1].amount else 0)
  }

  lemma {:induction false} AccountIsSum(ops: seq<Op>, n: nat, member: string)
    requires n <= |ops| && forall i | 0 <= i < n :: !ops[i].absolute
    ensures Account(ops, n, member) == None ==> SumOfFirstUses(ops, n, member) == 0
    ensures Account(ops, n, member) != None ==> Account(ops, n, member).value == SumOfFirstUses(ops, n, member)
  {
    if n > 0 {
      AccountIsSum(ops, n - 1, member);
    }
  }

  /**
    Increments accumulate exactly once: the floor of a member's score is the sum of the deltas of
    the distinct request ids, each counted where it was first used.
   */
  lemma IncrementsAccumulateOnce(ops: seq<Op>, member: string)
    requires RepeatsWhileLive(ops) && forall i | 0 <= i < |ops| :: !ops[i].absolute
    ensures match ZScore(After(ops, |ops|).z, member)
            case Some(s) => Floor(s) == SumOfFirstUses(ops, |ops|, member)
            case None => SumOfFirstUses(ops, |ops|, member) == 0
  {
    ScoresFollowAccounts(ops, |ops|, member);
    AccountIsSum(ops, |ops|, member);
  }
}

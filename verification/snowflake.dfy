/**
  The waiting snowflake generators with configurable field widths (pkg/distribute/snowflake.go).

  `SnowflakeSecond` and `SnowflakeMillis` differ in the unit of the clock and in the epoch only,
  so one class stands for both. As in module Ids the clock is an arbitrary list of readings.
 */
module Snowflake {
  import opened Bits

  const SECOND_EPOCH: int := 1735660800
  const MILLISECOND_EPOCH: int := 1735660800000

  datatype Config = Config(epoch: int, workerBits: nat, sequenceBits: nat, worker: int) {

    predicate Valid() {
      workerBits + sequenceBits <= 63 && 0 <= worker < Pow2(workerBits)
    }

    function Shift(): nat {
      workerBits + sequenceBits
    }

    /** The first relative timestamp that no longer fits beside the sign bit. */
    function Horizon(): int
      requires Valid()
    {
      Pow2(63 - Shift())
    }
  }

  /** The time of the last ID, relative to the epoch, and its sequence number. */
  datatype State = State(timestamp: int, sequence: int) {

    predicate Valid(c: Config) {
      0 <= timestamp && 0 <= sequence < Pow2(c.sequenceBits)
    }
  }

  datatype Outcome = Issued(id: int, used: nat) | Starved

  datatype Step = Step(next: State, outcome: Outcome)

  function Pack(c: Config, s: State): int {
    Or(Or(ShiftLeft(s.timestamp, c.Shift()), ShiftLeft(c.worker, c.sequenceBits)), s.sequence)
  }

  function GetWorkerId(c: Config, id: int): int {
    And(ShiftRight(id, c.sequenceBits), Mask(c.workerBits))
  }

  function GetTimestamp(c: Config, id: int): int
    requires c.Valid()
  {
    And(ShiftRight(id, c.Shift()), Mask(63 - c.Shift())) + c.epoch
  }

  /** The first reading at or after `from` that is at least `instant`; |clock| when there is none. */
  function FirstAtLeast(clock: seq<int>, from: nat, instant: int): (i: nat)
    requires from <= |clock|
    ensures from <= i <= |clock|
    ensures forall j :: from <= j < i ==> clock[j] < instant
    ensures i < |clock| ==> clock[i] >= instant
    decreases |clock| - from
  {
    if from == |clock| || clock[from] >= instant then from else FirstAtLeast(clock, from + 1, instant)
  }

  function IssueAt(c: Config, clock: seq<int>, i: nat, sequence: int): Step
    requires i < |clock|
  {
    var next := State(clock[i] - c.epoch, sequence);
    Step(next, Issued(Pack(c, next), i + 1))
  }

  /** What one call of `Next` does to the two variables, and what it returns. */
  function NextStep(c: Config, s: State, clock: seq<int>): Step {
    if clock == [] then Step(s, Starved)
    else
      var now := clock[0] - c.epoch;
      if now == s.timestamp then
        var sequence := And(s.sequence + 1, Mask(c.sequenceBits));
        if sequence != 0 then IssueAt(c, clock, 0, sequence)
        else
          var i := FirstAtLeast(clock, 0, s.timestamp + 1 + c.epoch);
          if i == |clock| then Step(State(s.timestamp, 0), Starved) else IssueAt(c, clock, i, 0)
      else if now < s.timestamp then
        var i := FirstAtLeast(clock, 0, s.timestamp + c.epoch);
        if i == |clock| then Step(s, Starved) else IssueAt(c, clock, i, 0)
      else IssueAt(c, clock, 0, 0)
  }

  class Generator {
    const config: Config
    const sequenceMask: int
    var timestamp: int
    var sequence: int

    ghost predicate Valid()
      reads this
    {
      config.Valid() && sequenceMask == Mask(config.sequenceBits) && Current().Valid(config)
    }

    function Current(): State
      reads this
    {
      State(timestamp, sequence)
    }

    constructor (config: Config)
      ensures this.config == config && sequenceMask == Mask(config.sequenceBits) && Current() == State(0, 0)
    {
      this.config := config;
      sequenceMask := Mask(config.sequenceBits);
      timestamp, sequence := 0, 0;
    }

    /**
      `NewSnowflakeSecond` and `NewSnowflakeMillis`; null stands for the panic on a negative
      width or on a worker number that does not fit its field.
     */
    static method Create(epoch: int, worker: int, workerBits: int, sequenceBits: int) returns (g: Generator?)
      ensures g != null <==> 0 <= workerBits <= 63 && 0 <= sequenceBits && 0 <= worker < Pow2(workerBits)
      ensures g != null ==> fresh(g) && g.config == Config(epoch, workerBits, sequenceBits, worker)
      ensures g != null && workerBits + sequenceBits <= 63 ==> g.Valid() && g.Current() == State(0, 0)
    {
      if workerBits < 0 {
        return null;
      }
      var workerMax := Mask(workerBits);
      if workerBits <= 63 {
        MaskIsLowBits(workerBits);
      } else {
        MaskOfWideField(workerBits);
      }
      if worker < 0 || worker > workerMax || sequenceBits < 0 {
        return null;
      }
      g := new Generator(Config(epoch, workerBits, sequenceBits, worker));
    }

    static method NewSecond(worker: int, workerBits: int, sequenceBits: int) returns (g: Generator?)
      ensures g != null <==> 0 <= workerBits <= 63 && 0 <= sequenceBits && 0 <= worker < Pow2(workerBits)
      ensures g != null ==> fresh(g) && g.config == Config(1735660800, workerBits, sequenceBits, worker)
    {
      g := Create(SECOND_EPOCH, worker, workerBits, sequenceBits);
    }

    /** `NewSnowflakeMillisDefault`: 9 bits for the worker and 12 for the sequence. */
    static method NewMillisDefault(worker: int) returns (g: Generator?)
      ensures g != null <==> 0 <= worker < 512
      ensures g != null ==> fresh(g) && g.Valid() && g.config == Config(1735660800000, 9, 12, worker)
    {
      assert Pow2(9) == 512;
      g := Create(MILLISECOND_EPOCH, worker, 9, 12);
    }

    /** Sleeps until the clock reads at least `timestamp`. */
    method AwaitInstant(clock: seq<int>, timestamp: int) returns (i: nat)
      ensures i == FirstAtLeast(clock, 0, timestamp + config.epoch)
    {
      i := 0;
      while i < |clock| && clock[i] - config.epoch < timestamp
        invariant i <= |clock|
        invariant FirstAtLeast(clock, 0, timestamp + config.epoch) == FirstAtLeast(clock, i, timestamp + config.epoch)
      {
        i := i + 1;
      }
    }

    /** One call, for any field widths that the constructor lets through. */
    method Next(clock: seq<int>) returns (outcome: Outcome)
      requires sequenceMask == Mask(config.sequenceBits)
      modifies this`timestamp, this`sequence
      ensures Step(Current(), outcome) == NextStep(config, old(Current()), clock)
      ensures old(Valid()) ==> Valid()
      ensures timestamp >= old(timestamp)
    {
      if config.Valid() && Current().Valid(config) {
        NextKeepsValid(config, Current(), clock);
      }
      if |clock| == 0 {
        return Starved;
      }
      var i := 0;
      var now := clock[0] - config.epoch;
      if now == timestamp {
        sequence := And(sequence + 1, sequenceMask);
        if sequence == 0 {
          i := AwaitInstant(clock, timestamp + 1);
        }
      } else if now < timestamp {
        i := AwaitInstant(clock, timestamp);
        if i < |clock| {
          sequence := 0;
        }
      } else {
        sequence := 0;
      }
      if i == |clock| {
        return Starved;
      }
      timestamp := clock[i] - config.epoch;
      outcome := Issued(Pack(config, Current()), i + 1);
    }
  }

  lemma MaskOfWideField(k: nat)
    requires k > 63
    ensures Mask(k) == -1
  {
    Pow2Values();
    Pow2Add(k - 64, 64);
    assert -1 * Pow2(k) == (0 - Pow2(k - 64)) * TWO_TO_THE_64;
    AddMultiple(TWO_TO_THE_63, TWO_TO_THE_64, 0 - Pow2(k - 64));
  }

  lemma CounterStep(c: Config, sequence: int)
    requires c.Valid() && 0 <= sequence < Pow2(c.sequenceBits)
    ensures And(sequence + 1, Mask(c.sequenceBits)) == if sequence + 1 == Pow2(c.sequenceBits) then 0 else sequence + 1
  {
    MaskIsLowBits(c.sequenceBits);
    AndLowBits(sequence + 1, c.sequenceBits);
    var m := Pow2(c.sequenceBits);
    if sequence + 1 == m {
      ModFromQuotient(m, m, 1, 0);
    } else {
      ModFromQuotient(sequence + 1, m, 0, sequence + 1);
    }
  }

  /** The stored time never moves backwards, and never before the epoch, for any clock. */
  lemma NextKeepsValid(c: Config, s: State, clock: seq<int>)
    requires c.Valid() && s.Valid(c)
    ensures NextStep(c, s, clock).next.Valid(c)
    ensures NextStep(c, s, clock).next.timestamp >= s.timestamp
    ensures NextStep(c, s, clock).outcome.Issued? ==> 1 <= NextStep(c, s, clock).outcome.used <= |clock|
  {
    CounterStep(c, s.sequence);
  }

  // ---------------------------------------------------------------- runs

  /** One finished call: its first and its last clock reading, and the variables around it. */
  datatype Call = Call(before: State, first: int, last: int, after: State)

  function Run(c: Config, s: State, clock: seq<int>): seq<Call>
    requires c.Valid() && s.Valid(c)
    decreases |clock|
  {
    NextKeepsValid(c, s, clock);
    var t := NextStep(c, s, clock);
    match t.outcome
    case Issued(id, used) =>
      [Call(s, clock[0] - c.epoch, clock[used - 1] - c.epoch, t.next)] + Run(c, t.next, clock[used..])
    case Starved => []
  }

  predicate Less(a: State, b: State) {
    a.timestamp < b.timestamp || (a.timestamp == b.timestamp && a.sequence < b.sequence)
  }

  /** The clock was behind, and the wait for it ended exactly on the last timestamp. */
  predicate WaitEndsOnLastTimestamp(c: Call) {
    c.first < c.before.timestamp == c.last
  }

  /** Everything the run theorems need of one call. */
  ghost predicate Link(c: Config, call: Call) {
    && call.before.Valid(c) && call.after.Valid(c)
    && call.before.timestamp <= call.after.timestamp == call.last
    && (Less(call.before, call.after) <==> !WaitEndsOnLastTimestamp(call))
    && call.after.sequence == (if call.first == call.before.timestamp == call.last then call.before.sequence + 1 else 0)
  }

  /** The earliest time that a call accepts: the last one, or the next if the last has no number left. */
  function Bound(c: Config, s: State, clock: seq<int>): int
    requires clock != []
  {
    if clock[0] - c.epoch == s.timestamp && s.sequence + 1 == Pow2(c.sequenceBits) then s.timestamp + 1 else s.timestamp
  }

  /** One call, told from the state and the readings: it takes the first reading that it accepts. */
  lemma CallExactly(c: Config, s: State, clock: seq<int>)
    requires c.Valid() && s.Valid(c)
    ensures var t := NextStep(c, s, clock);
      && (t.outcome.Starved? <==> clock == [] || forall j | 0 <= j < |clock| :: clock[j] - c.epoch < Bound(c, s, clock))
      && (t.outcome.Issued? ==>
            && var last := t.outcome.used - 1;
            && 0 <= last < |clock| && clock[last] - c.epoch >= Bound(c, s, clock)
            && (forall j | 0 <= j < last :: clock[j] - c.epoch < Bound(c, s, clock))
            && t.outcome.id == Pack(c, t.next) && t.next.timestamp == clock[last] - c.epoch
            && t.next.sequence == (if last == 0 && t.next.timestamp == s.timestamp then s.sequence + 1 else 0))
  {
    CounterStep(c, s.sequence);
  }

  ghost predicate Chained(c: Config, run: seq<Call>) {
    && (forall k | 0 <= k < |run| :: Link(c, run[k]))
    && (forall j, k | 0 <= j && k == j + 1 < |run| :: run[j].after == run[k].before)
  }

  lemma CallLinks(c: Config, s: State, clock: seq<int>)
    requires c.Valid() && s.Valid(c) && NextStep(c, s, clock).outcome.Issued?
    ensures var t := NextStep(c, s, clock);
      && 1 <= t.outcome.used <= |clock|
      && Link(c, Call(s, clock[0] - c.epoch, clock[t.outcome.used - 1] - c.epoch, t.next))
  {
    NextKeepsValid(c, s, clock);
    CounterStep(c, s.sequence);
  }

  lemma {:induction false} RunIsChained(c: Config, s: State, clock: seq<int>)
    requires c.Valid() && s.Valid(c)
    ensures Chained(c, Run(c, s, clock))
    ensures Run(c, s, clock) != [] ==> Run(c, s, clock)[0].before == s
    decreases |clock|
  {
    NextKeepsValid(c, s, clock);
    var t := NextStep(c, s, clock);
    if t.outcome.Issued? {
      CallLinks(c, s, clock);
      RunIsChained(c, t.next, clock[t.outcome.used..]);
    }
  }

  lemma {:induction false} StretchIncreases(c: Config, run: seq<Call>, i: nat, j: nat)
    requires Chained(c, run) && i < j < |run|
    requires forall k | i < k <= j :: !WaitEndsOnLastTimestamp(run[k])
    ensures Less(run[i].after, run[j].after)
    decreases j - i
  {
    assert run[j - 1].after == run[j].before;
    if i < j - 1 {
      StretchIncreases(c, run, i, j - 1);
    }
  }

  /** For any clock the timestamps of a run never decrease. */
  lemma {:induction false} TimestampsNeverDecrease(c: Config, s: State, clock: seq<int>, i: nat, j: nat)
    requires c.Valid() && s.Valid(c)
    requires i <= j < |Run(c, s, clock)|
    ensures 0 <= Run(c, s, clock)[i].after.timestamp <= Run(c, s, clock)[j].after.timestamp
    decreases j - i
  {
    RunIsChained(c, s, clock);
    var run := Run(c, s, clock);
    if i < j {
      TimestampsNeverDecrease(c, s, clock, i, j - 1);
      assert run[j - 1].after == run[j].before;
    }
  }

  // ---------------------------------------------------------------- the IDs themselves

  /** The worker and sequence fields stay below the timestamp field. */
  lemma LowFields(c: Config, s: State)
    requires c.Valid() && s.Valid(c)
    ensures ShiftLeft(c.worker, c.sequenceBits) == c.worker * Pow2(c.sequenceBits)
    ensures 0 <= c.worker * Pow2(c.sequenceBits)
    ensures c.worker * Pow2(c.sequenceBits) + s.sequence < Pow2(c.Shift())
  {
    Pow2Add(c.workerBits, c.sequenceBits);
    Pow2Monotone(c.Shift(), 63);
    Pow2Values();
    MulUpTo(c.worker, Pow2(c.workerBits), Pow2(c.sequenceBits));
  }

  /** A number whose low k bits are clear, split at bits k and q. */
  lemma SplitAligned(t: int, worker: int, w: nat, q: nat)
    requires t % Pow2(w + q) == 0
    ensures t + worker * Pow2(q) == (t / Pow2(w + q) * Pow2(w) + worker) * Pow2(q)
  {
    Pow2Add(w, q);
    var h := t / Pow2(w + q);
    MulAssociates(h, Pow2(w), Pow2(q));
    Distribute(h * Pow2(w), worker, Pow2(q));
  }

  /** The two upper fields, joined and split at the sequence field. */
  lemma UpperFields(c: Config, s: State)
    requires c.Valid() && s.Valid(c)
    ensures var t, m := ShiftLeft(s.timestamp, c.Shift()), c.worker * Pow2(c.sequenceBits);
      && Or(t, ShiftLeft(c.worker, c.sequenceBits)) == t + m
      && t + m == (t / Pow2(c.Shift()) * Pow2(c.workerBits) + c.worker) * Pow2(c.sequenceBits)
  {
    LowFields(c, s);
    ShiftLeftThenRight(s.timestamp, c.Shift());
    var t := ShiftLeft(s.timestamp, c.Shift());
    OrDisjoint(t, c.worker * Pow2(c.sequenceBits), c.Shift());
    SplitAligned(t, c.worker, c.workerBits, c.sequenceBits);
  }

  lemma PackIsSum(c: Config, s: State)
    requires c.Valid() && s.Valid(c)
    ensures Pack(c, s) == ShiftLeft(s.timestamp, c.Shift()) + c.worker * Pow2(c.sequenceBits) + s.sequence
    ensures Pack(c, s) == (ShiftLeft(s.timestamp, c.Shift()) / Pow2(c.Shift()) * Pow2(c.workerBits) + c.worker)
                          * Pow2(c.sequenceBits) + s.sequence
  {
    UpperFields(c, s);
    var h := ShiftLeft(s.timestamp, c.Shift()) / Pow2(c.Shift()) * Pow2(c.workerBits) + c.worker;
    OrBelow(h, Pow2(c.sequenceBits), s.sequence, c.sequenceBits);
  }

  lemma Distribute(a: int, b: int, m: int)
    ensures a * m + b * m == (a + b) * m
  {
  }

  lemma MulUpTo(a: int, b: int, m: int)
    requires 0 <= a < b && m > 0
    ensures 0 <= a * m <= b * m - m
  {
    Distribute(a, b - a, m);
    MulAtLeast(b - a, m);
  }

  /** `GetWorkerId` inverts the packing for every timestamp, in range or overflowed. */
  lemma WorkerIsRecovered(c: Config, s: State)
    requires c.Valid() && s.Valid(c)
    ensures GetWorkerId(c, Pack(c, s)) == c.worker
  {
    PackIsSum(c, s);
    var h := ShiftLeft(s.timestamp, c.Shift()) / Pow2(c.Shift());
    ModFromQuotient(Pack(c, s), Pow2(c.sequenceBits), h * Pow2(c.workerBits) + c.worker, s.sequence);
    MaskIsLowBits(c.workerBits);
    AndLowBits(h * Pow2(c.workerBits) + c.worker, c.workerBits);
    ModFromQuotient(h * Pow2(c.workerBits) + c.worker, Pow2(c.workerBits), h, c.worker);
  }

  lemma QuotientAbove(t: int, low: int, m: nat)
    requires 0 <= low < m && t % m == 0
    ensures (t + low) / m == t / m
  {
    ModFromQuotient(t + low, m, t / m, low);
  }

  lemma TimestampField(c: Config, s: State)
    requires c.Valid() && s.Valid(c)
    ensures Pack(c, s) / Pow2(c.Shift()) % c.Horizon() == s.timestamp % c.Horizon()
  {
    PackIsSum(c, s);
    LowFields(c, s);
    var k := c.Shift();
    var t := ShiftLeft(s.timestamp, k);
    ShiftLeftThenRight(s.timestamp, k);
    QuotientAbove(t, c.worker * Pow2(c.sequenceBits) + s.sequence, Pow2(k));
    assert Pow2(64 - k) == 2 * c.Horizon();
    SameModHalf(t / Pow2(k), s.timestamp, c.Horizon());
  }

  /** `GetTimestamp` recovers the time exactly while it fits the bits that the other fields leave. */
  lemma TimestampIsRecoveredExactlyInRange(c: Config, s: State)
    requires c.Valid() && s.Valid(c)
    ensures GetTimestamp(c, Pack(c, s)) == s.timestamp % c.Horizon() + c.epoch
    ensures GetTimestamp(c, Pack(c, s)) == s.timestamp + c.epoch <==> s.timestamp < c.Horizon()
  {
    TimestampField(c, s);
    MaskIsLowBits(63 - c.Shift());
    AndLowBits(Pack(c, s) / Pow2(c.Shift()), 63 - c.Shift());
    if s.timestamp < c.Horizon() {
      ModFromQuotient(s.timestamp, c.Horizon(), 0, s.timestamp);
    }
  }

  lemma SameModHalf(a: int, b: int, m: nat)
    requires m > 0 && a % (2 * m) == b % (2 * m)
    ensures a % m == b % m
  {
    var r := a % (2 * m);
    var p, q := a / (2 * m), b / (2 * m);
    assert a == r + (2 * p) * m && b == r + (2 * q) * m;
    AddMultiple(r, m, 2 * p);
    AddMultiple(r, m, 2 * q);
  }

  /** While the time fits, an ID is non-negative and IDs of one generator order like (time, sequence). */
  lemma IdOrderIsTimeOrder(c: Config, a: State, b: State)
    requires c.Valid() && a.Valid(c) && b.Valid(c)
    requires a.timestamp < c.Horizon() && b.timestamp < c.Horizon()
    ensures 0 <= Pack(c, a) < TWO_TO_THE_63
    ensures Pack(c, a) < Pack(c, b) <==> Less(a, b)
  {
    PackInRange(c, a);
    PackInRange(c, b);
    var m := Pow2(c.Shift());
    PackIsSum(c, a);
    PackIsSum(c, b);
    LowFields(c, a);
    LowFields(c, b);
    if a.timestamp < b.timestamp {
      MulUpTo(a.timestamp, b.timestamp, m);
    } else if b.timestamp < a.timestamp {
      MulUpTo(b.timestamp, a.timestamp, m);
    }
  }

  lemma PackInRange(c: Config, s: State)
    requires c.Valid() && s.Valid(c) && s.timestamp < c.Horizon()
    ensures ShiftLeft(s.timestamp, c.Shift()) == s.timestamp * Pow2(c.Shift())
    ensures 0 <= Pack(c, s) < TWO_TO_THE_63
  {
    PackIsSum(c, s);
    LowFields(c, s);
    Pow2Values();
    Pow2Add(63 - c.Shift(), c.Shift());
    MulUpTo(s.timestamp, c.Horizon(), Pow2(c.Shift()));
  }

  /** While the time fits, an ID is the time, the worker and the sequence number side by side. */
  lemma LayoutInRange(c: Config, s: State)
    requires c.Valid() && s.Valid(c) && s.timestamp < c.Horizon()
    ensures Pack(c, s) == s.timestamp * Pow2(c.workerBits + c.sequenceBits) + c.worker * Pow2(c.sequenceBits) + s.sequence
  {
    PackInRange(c, s);
    PackIsSum(c, s);
  }

  ghost predicate StrictlyIncreasing(c: Config, run: seq<Call>) {
    forall i, j | 0 <= i < j < |run| :: Pack(c, run[i].after) < Pack(c, run[j].after)
  }

  /**
    The IDs of a run strictly increase exactly when no later call waits out a backward clock
    until it reads the last timestamp again: that wait ends one instant too early.
   */
  lemma IncreasingExactlyWhenNoWaitEndsEarly(c: Config, s: State, clock: seq<int>)
    requires c.Valid() && s.Valid(c)
    requires forall k | 0 <= k < |clock| :: clock[k] - c.epoch < c.Horizon()
    ensures StrictlyIncreasing(c, Run(c, s, clock))
            <==> forall k | 1 <= k < |Run(c, s, clock)| :: !WaitEndsOnLastTimestamp(Run(c, s, clock)[k])
  {
    var run := Run(c, s, clock);
    RunIsChained(c, s, clock);
    RunStaysInRange(c, s, clock);
    if forall k | 1 <= k < |run| :: !WaitEndsOnLastTimestamp(run[k]) {
      forall i, j | 0 <= i < j < |run|
        ensures Pack(c, run[i].after) < Pack(c, run[j].after)
      {
        StretchIncreases(c, run, i, j);
        IdOrderIsTimeOrder(c, run[i].after, run[j].after);
      }
    }
    if StrictlyIncreasing(c, run) {
      forall k | 1 <= k < |run|
        ensures !WaitEndsOnLastTimestamp(run[k])
      {
        assert run[k - 1].after == run[k].before;
        assert Pack(c, run[k - 1].after) < Pack(c, run[k].after);
        IdOrderIsTimeOrder(c, run[k - 1].after, run[k].after);
      }
    }
  }

  lemma {:induction false} RunStaysInRange(c: Config, s: State, clock: seq<int>)
    requires c.Valid() && s.Valid(c)
    requires forall k | 0 <= k < |clock| :: clock[k] - c.epoch < c.Horizon()
    ensures forall k | 0 <= k < |Run(c, s, clock)| :: Run(c, s, clock)[k].after.timestamp < c.Horizon()
    decreases |clock|
  {
    NextKeepsValid(c, s, clock);
    var t := NextStep(c, s, clock);
    if t.outcome.Issued? {
      RunStaysInRange(c, t.next, clock[t.outcome.used..]);
    }
  }

  /** A clock that never goes back, and starts no earlier than the last ID, never causes such a wait. */
  lemma {:induction false} MonotoneClockNeverWaitsEarly(c: Config, s: State, clock: seq<int>)
    requires c.Valid() && s.Valid(c)
    requires forall j, k | 0 <= j < k < |clock| :: clock[j] <= clock[k]
    requires clock != [] ==> s.timestamp <= clock[0] - c.epoch
    ensures forall k | 0 <= k < |Run(c, s, clock)| :: !WaitEndsOnLastTimestamp(Run(c, s, clock)[k])
    decreases |clock|
  {
    NextKeepsValid(c, s, clock);
    var t := NextStep(c, s, clock);
    if t.outcome.Issued? {
      MonotoneClockNeverWaitsEarly(c, t.next, clock[t.outcome.used..]);
    }
  }

  /** The early end repeats an ID: forward to 5, back to 4, and 5 again. */
  lemma EarlyEndRepeatsAnId(c: Config)
    requires c.Valid()
    ensures var run := Run(c, State(0, 0), [c.epoch + 5, c.epoch + 4, c.epoch + 5]);
      |run| == 2 && Pack(c, run[0].after) == Pack(c, run[1].after)
  {
    var clock := [c.epoch + 5, c.epoch + 4, c.epoch + 5];
    assert NextStep(c, State(0, 0), clock).next == State(5, 0);
    assert clock[1..] == [c.epoch + 4, c.epoch + 5];
    assert FirstAtLeast(clock[1..], 0, 5 + c.epoch) == 1;
    assert NextStep(c, State(5, 0), clock[1..]).next == State(5, 0);
    assert clock[1..][2..] == [];
    assert Run(c, State(5, 0), []) == [];
    assert Run(c, State(5, 0), clock[1..]) == [Call(State(5, 0), 4, 5, State(5, 0))] + Run(c, State(5, 0), clock[1..][2..]);
  }
}

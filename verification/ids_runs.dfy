/**
  Whole runs of the rollback-tolerant generator over an arbitrary clock: what strictly
  increases, exactly when two calls return the same ID, and what an ID reveals.
 */
module IdRuns {
  import opened Bits
  import opened Ids

  /** One finished call: the variables before it, its first clock reading, the variables after it. */
  datatype Call = Call(before: State, reading: int, after: State)

  function Run(s: State, clock: seq<int>): (run: seq<Call>)
    requires s.Valid()
    ensures forall k | 0 <= k < |run| :: run[k].before.Valid() && run[k].after.Valid()
    decreases |clock|
  {
    CallKeepsValid(s, clock);
    var t := NextID(s, clock);
    match t.outcome
    case Issued(id, used) => [Call(s, clock[0], t.next)] + Run(t.next, clock[used..])
    case _ => []
  }

  predicate Recovered(c: Call)
    requires c.before.Valid()
  {
    Recovers(c.before, c.reading)
  }

  predicate PairLess(a: (int, int), b: (int, int)) {
    a.0 < b.0 || (a.0 == b.0 && a.1 < b.1)
  }

  predicate TripleLess(a: State, b: State) {
    a.backTimes < b.backTimes
    || (a.backTimes == b.backTimes && PairLess((a.timestamp, a.sequence), (b.timestamp, b.sequence)))
  }

  /** Two calls stamp their IDs alike when every field that varies on one node agrees. */
  predicate SameStamp(a: State, b: State) {
    a.backTimes == b.backTimes && a.timestamp == b.timestamp && a.sequence == b.sequence
  }

  /** A lower bound on the next ID that carries rollback field 0. */
  function Floor(s: State): (int, int)
    requires s.Valid()
  {
    if s.backTimes == 0 then (s.timestamp, s.sequence) else (s.backPoints[0], SEQUENCE_LIMIT)
  }

  /** Everything the run theorems need of one call. */
  ghost predicate Link(c: Call)
    requires c.before.Valid() && c.after.Valid()
  {
    && c.before.node == c.after.node
    && (TripleLess(c.before, c.after) <==> !Recovered(c))
    && (c.after.backTimes == 0 ==> PairLess(Floor(c.before), Floor(c.after)))
    && !PairLess(Floor(c.after), Floor(c.before))
    && c.after.sequence == (if c.after.timestamp == c.before.timestamp then c.before.sequence + 1 else 0)
    && (c.after.backTimes > 0 && c.after.sequence != 0 ==>
          c.after == c.before.(sequence := c.before.sequence + 1) && !Recovered(c))
  }

  // ---------------------------------------------------------------- one call, choice by choice

  /** A call that has no number left in the instant it observes waits for another reading. */
  predicate Waits(s: State, clock: seq<int>)
    requires s.Valid() && clock != []
  {
    s.sequence == 8191 && (clock[0] <= s.backPoints[0] || clock[0] == s.timestamp)
  }

  /** The instant that a call will stamp: what it observes, or the end of its wait. */
  function Stamp(s: State, clock: seq<int>): int
    requires s.Valid() && clock != []
  {
    var i := FirstOther(clock, 1, s.timestamp);
    if Waits(s, clock) && i < |clock| then clock[i]
    else if clock[0] > s.backPoints[0] then clock[0] else s.timestamp
  }

  /** How many rollbacks are pending once the first reading has been looked at. */
  function Pending(s: State, clock: seq<int>): int
    requires s.Valid() && clock != []
  {
    if clock[0] > s.backPoints[0] > 0 then 0 else s.backTimes
  }

  /** How a call ends: without a reading to go by, in a fourth rollback, or with an ID. */
  lemma CallEndsExactly(s: State, clock: seq<int>)
    requires s.Valid()
    ensures var outcome := NextID(s, clock).outcome;
      && (outcome.Starved? <==> clock == [] || (Waits(s, clock) && forall j | 1 <= j < |clock| :: clock[j] == s.timestamp))
      && (outcome.Crashed? <==> !outcome.Starved? && Stamp(s, clock) < s.timestamp && Pending(s, clock) == 3)
  {
    if clock != [] {
      if s.sequence == 8191 {
        FullCallEnds(s, clock);
      } else {
        NumberedCallEnds(s, clock);
      }
    }
  }

  lemma FullCallEnds(s: State, clock: seq<int>)
    requires s.Valid() && clock != [] && s.sequence == 8191
    ensures var outcome := NextID(s, clock).outcome;
      && (outcome.Starved? <==> Waits(s, clock) && FirstOther(clock, 1, s.timestamp) == |clock|)
      && (outcome.Crashed? <==> !outcome.Starved? && Stamp(s, clock) < s.timestamp && Pending(s, clock) == 3)
  {
    CounterStep(s.sequence);
  }

  lemma NumberedCallEnds(s: State, clock: seq<int>)
    requires s.Valid() && clock != [] && s.sequence < 8191
    ensures var outcome := NextID(s, clock).outcome;
      && !outcome.Starved? && (outcome.Crashed? <==> Stamp(s, clock) < s.timestamp && Pending(s, clock) == 3)
  {
    CounterStep(s.sequence);
  }

  /** What an ID-giving call makes of every variable. */
  ghost predicate IssuedExactly(s: State, clock: seq<int>, next: State)
    requires s.Valid() && clock != []
  {
    var points := if clock[0] > s.backPoints[0] > 0 then [0, 0, 0] else s.backPoints;
    var pending := Pending(s, clock);
    && next.node == s.node
    && next.timestamp == Stamp(s, clock)
    && next.sequence == (if next.timestamp == s.timestamp then s.sequence + 1 else 0)
    && (if next.timestamp < s.timestamp
        then pending < 3 && next.backTimes == pending + 1 && next.backPoints == points[pending := s.timestamp]
        else next.backTimes == pending && next.backPoints == points)
  }

  lemma FullCallExactly(s: State, clock: seq<int>)
    requires s.Valid() && NextID(s, clock).outcome.Issued? && s.sequence == 8191
    ensures IssuedExactly(s, clock, NextID(s, clock).next)
  {
    CounterStep(s.sequence);
  }

  lemma NumberedCallExactly(s: State, clock: seq<int>)
    requires s.Valid() && NextID(s, clock).outcome.Issued? && s.sequence < 8191
    ensures IssuedExactly(s, clock, NextID(s, clock).next)
  {
    CounterStep(s.sequence);
  }

  /** The ID, the readings taken, and every variable after a call, told from the state and the readings before it. */
  lemma CallExactly(s: State, clock: seq<int>)
    requires s.Valid() && NextID(s, clock).outcome.Issued?
    ensures var t := NextID(s, clock);
      && IssuedExactly(s, clock, t.next) && t.outcome.id == Pack(t.next)
      && t.outcome.used == if Waits(s, clock) then FirstOther(clock, 1, s.timestamp) + 1 else 1
  {
    CounterStep(s.sequence);
    CallKeepsValid(s, clock);
    if s.sequence == 8191 {
      FullCallExactly(s, clock);
    } else {
      NumberedCallExactly(s, clock);
    }
  }

  lemma ExactCallLinks(s: State, clock: seq<int>, next: State)
    requires s.Valid() && clock != [] && next.Valid() && IssuedExactly(s, clock, next)
    ensures Link(Call(s, clock[0], next))
  {
  }

  lemma CallLinks(s: State, clock: seq<int>)
    requires s.Valid()
    requires NextID(s, clock).outcome.Issued?
    ensures NextID(s, clock).next.Valid()
    ensures Link(Call(s, clock[0], NextID(s, clock).next))
  {
    CallKeepsValid(s, clock);
    CallExactly(s, clock);
    ExactCallLinks(s, clock, NextID(s, clock).next);
  }

  ghost predicate Chained(run: seq<Call>) {
    && (forall k | 0 <= k < |run| :: run[k].before.Valid() && run[k].after.Valid() && Link(run[k]))
    && (forall k | 0 < k < |run| :: run[k - 1].after == run[k].before)
  }

  lemma {:induction false} RunIsChained(s: State, clock: seq<int>)
    requires s.Valid()
    ensures Chained(Run(s, clock))
    ensures Run(s, clock) != [] ==> Run(s, clock)[0].before == s
    decreases |clock|
  {
    CallKeepsValid(s, clock);
    var t := NextID(s, clock);
    if t.outcome.Issued? {
      CallLinks(s, clock);
      RunIsChained(t.next, clock[t.outcome.used..]);
    }
  }

  // ---------------------------------------------------------------- between two recoveries

  lemma {:induction false} StretchIncreases(run: seq<Call>, i: nat, j: nat)
    requires Chained(run) && i < j < |run|
    requires forall k | i < k <= j :: !Recovered(run[k])
    ensures TripleLess(run[i].after, run[j].after)
    decreases j - i
  {
    assert Link(run[j]) && run[j - 1].after == run[j].before;
    if i < j - 1 {
      StretchIncreases(run, i, j - 1);
    }
  }

  /** From one call to the next (rollback count, timestamp, sequence) increases, unless the clock has recovered. */
  lemma OnlyARecoveryFallsBack(s: State, clock: seq<int>, k: nat)
    requires s.Valid()
    requires 0 < k < |Run(s, clock)|
    ensures TripleLess(Run(s, clock)[k - 1].after, Run(s, clock)[k].after) <==> !Recovered(Run(s, clock)[k])
  {
    RunIsChained(s, clock);
    var c := Run(s, clock)[k];
    assert Link(c) && Run(s, clock)[k - 1].after == c.before;
  }

  /** Between two recoveries the triple strictly increases, for every clock. */
  lemma IncreasesBetweenRecoveries(s: State, clock: seq<int>, i: nat, j: nat)
    requires s.Valid()
    requires i < j < |Run(s, clock)|
    requires forall k | i < k <= j :: !Recovered(Run(s, clock)[k])
    ensures TripleLess(Run(s, clock)[i].after, Run(s, clock)[j].after)
  {
    RunIsChained(s, clock);
    StretchIncreases(Run(s, clock), i, j);
  }

  // ---------------------------------------------------------------- the whole run

  lemma {:induction false} FloorNeverFalls(run: seq<Call>, i: nat, j: nat)
    requires Chained(run) && i <= j < |run|
    ensures !PairLess(Floor(run[j].after), Floor(run[i].after))
    decreases j - i
  {
    if i < j {
      FloorNeverFalls(run, i, j - 1);
      assert Link(run[j]) && run[j - 1].after == run[j].before;
    }
  }

  /** IDs with rollback field 0 increase over the whole run, through any rollbacks and recoveries. */
  lemma UnrolledIncrease(s: State, clock: seq<int>, i: nat, j: nat)
    requires s.Valid()
    requires i < j < |Run(s, clock)|
    requires Run(s, clock)[i].after.backTimes == 0 == Run(s, clock)[j].after.backTimes
    ensures var a, b := Run(s, clock)[i].after, Run(s, clock)[j].after;
      PairLess((a.timestamp, a.sequence), (b.timestamp, b.sequence))
  {
    RunIsChained(s, clock);
    var run := Run(s, clock);
    FloorNeverFalls(run, i, j - 1);
    assert Link(run[j]) && run[j - 1].after == run[j].before;
  }

  /** The call stamped the first ID of its instant at its rollback depth. */
  predicate Opens(c: Call) {
    c.after.backTimes > 0 && c.after.sequence == 0
  }

  /**
    Before the call one can tell whether it will open an instant: it leaves the last stamp, for an
    earlier instant, or for any other while a rollback is pending.
   */
  lemma OpensExactly(s: State, clock: seq<int>)
    requires s.Valid() && clock != [] && NextID(s, clock).outcome.Issued?
    ensures NextID(s, clock).next.Valid() && NextID(s, clock).next.timestamp == Stamp(s, clock)
    ensures Opens(Call(s, clock[0], NextID(s, clock).next)) <==>
            Stamp(s, clock) < s.timestamp
            || (Stamp(s, clock) > s.timestamp && s.backTimes > 0 && !Recovers(s, clock[0]))
  {
    CallKeepsValid(s, clock);
    CallExactly(s, clock);
  }

  /** The call that opened the instant of call j. */
  lemma {:induction false} OpeningOf(run: seq<Call>, j: nat) returns (o: nat)
    requires Chained(run) && j < |run|
    requires run[j].after.backTimes > 0
    requires run[0].before.backTimes == 0
    ensures o <= j && Opens(run[o])
    ensures run[o].after.backTimes == run[j].after.backTimes && run[o].after.timestamp == run[j].after.timestamp
    ensures forall k | o < k <= j :: !Recovered(run[k])
    decreases j
  {
    assert Link(run[j]);
    if run[j].after.sequence == 0 {
      o := j;
    } else {
      assert j > 0 && run[j - 1].after == run[j].before;
      o := OpeningOf(run, j - 1);
    }
  }

  ghost predicate AllDistinct(run: seq<Call>) {
    forall i, j | 0 <= i < j < |run| :: !SameStamp(run[i].after, run[j].after)
  }

  /** No rollback returns to an instant that was opened before at the same depth. */
  ghost predicate NoInstantReopened(run: seq<Call>) {
    forall i, j | 0 <= i < j < |run| && Opens(run[i]) && Opens(run[j]) ::
      run[i].after.timestamp != run[j].after.timestamp || run[i].after.backTimes != run[j].after.backTimes
  }

  /**
    The stamps of a run repeat exactly when some call opens an instant, while rolled back, that
    an earlier call had opened at the same depth.
   */
  lemma DistinctExactlyWhenNoInstantReopens(s: State, clock: seq<int>)
    requires s.Valid() && s.backTimes == 0
    ensures AllDistinct(Run(s, clock)) <==> NoInstantReopened(Run(s, clock))
  {
    RunIsChained(s, clock);
    var run := Run(s, clock);
    if AllDistinct(run) {
      forall i, j | 0 <= i < j < |run| && Opens(run[i]) && Opens(run[j])
        ensures run[i].after.timestamp != run[j].after.timestamp || run[i].after.backTimes != run[j].after.backTimes
      {
        assert !SameStamp(run[i].after, run[j].after);
      }
    }
    if NoInstantReopened(run) {
      forall i, j | 0 <= i < j < |run|
        ensures !SameStamp(run[i].after, run[j].after)
      {
        if SameStamp(run[i].after, run[j].after) {
          if run[j].after.backTimes == 0 {
            UnrolledIncrease(s, clock, i, j);
          } else {
            var oi := OpeningOf(run, i);
            var oj := OpeningOf(run, j);
            if oj <= i {
              StretchIncreases(run, i, j);
            }
          }
        }
      }
    }
  }

  function Episode(run: seq<Call>, i: nat): nat
    requires i < |run| && forall k | 0 <= k < |run| :: run[k].before.Valid()
  {
    (if Recovered(run[i]) then 1 else 0) + (if i == 0 then 0 else Episode(run, i - 1))
  }

  lemma {:induction false} SameEpisode(run: seq<Call>, i: nat, j: nat)
    requires i <= j < |run| && forall k | 0 <= k < |run| :: run[k].before.Valid()
    ensures Episode(run, i) <= Episode(run, j)
    ensures Episode(run, i) == Episode(run, j) ==> forall k | i < k <= j :: !Recovered(run[k])
    decreases j - i
  {
    if i < j {
      SameEpisode(run, i, j - 1);
    }
  }

  /** All stamps differ when each rollback episode stays above the instants rolled back to before it. */
  lemma RisingEpisodesAreDistinct(s: State, clock: seq<int>)
    requires s.Valid() && s.backTimes == 0
    requires var run := Run(s, clock);
      forall i, j | 0 <= i < j < |run| && run[i].after.backTimes > 0 && run[j].after.backTimes > 0
                    && Episode(run, i) < Episode(run, j) ::
        run[i].after.timestamp < run[j].after.timestamp
    ensures AllDistinct(Run(s, clock))
  {
    RunIsChained(s, clock);
    var run := Run(s, clock);
    forall i, j | 0 <= i < j < |run|
      ensures !SameStamp(run[i].after, run[j].after)
    {
      if SameStamp(run[i].after, run[j].after) {
        if run[j].after.backTimes == 0 {
          UnrolledIncrease(s, clock, i, j);
        } else {
          SameEpisode(run, i, j);
          StretchIncreases(run, i, j);
        }
      }
    }
  }

  // ---------------------------------------------------------------- the IDs themselves

  predicate Packable(s: State) {
    && 0 <= s.node < NODE_LIMIT
    && 0 <= s.sequence < SEQUENCE_LIMIT
    && 0 <= s.backTimes <= MAX_BACK_TIMES
    && EPOCH - TIMESTAMP_SPAN <= s.timestamp < EPOCH + TIMESTAMP_SPAN
  }

  lemma OffsetValues()
    ensures Pow2(TIME_OFFSET) == 0x40_0000 && Pow2(NODE_OFFSET) == 0x8000 && Pow2(COUNTER_BITS) == 0x2000
  {
    Pow2Values();
  }

  lemma FieldsJoin(t: int, node: int, backTimes: int, sequence: int)
    requires 0 <= node < 0x80 && 0 <= backTimes < 4 && 0 <= sequence < 0x2000
    ensures Or(Or(Or(t * 0x40_0000, node * 0x8000), backTimes * 0x2000), sequence)
            == t * 0x40_0000 + node * 0x8000 + backTimes * 0x2000 + sequence
  {
    OffsetValues();
    var u := t * 0x80 + node;
    var v := u * 4 + backTimes;
    OrBelow(t, 0x40_0000, node * 0x8000, TIME_OFFSET);
    assert t * 0x40_0000 + node * 0x8000 == u * 0x8000;
    OrBelow(u, 0x8000, backTimes * 0x2000, NODE_OFFSET);
    assert u * 0x8000 + backTimes * 0x2000 == v * 0x2000;
    OrBelow(v, 0x2000, sequence, COUNTER_BITS);
  }

  lemma PackIsSum(s: State)
    requires Packable(s)
    ensures Pack(s) == (s.timestamp - 1735660800000) * 0x40_0000 + s.node * 0x8000 + s.backTimes * 0x2000 + s.sequence
  {
    FieldsShift(s);
    FieldsJoin(s.timestamp - EPOCH, s.node, s.backTimes, s.sequence);
  }

  /** No field of a packable state loses a bit when it is shifted into place. */
  lemma FieldsShift(s: State)
    requires Packable(s)
    ensures ShiftLeft(s.timestamp - EPOCH, TIME_OFFSET) == (s.timestamp - EPOCH) * 0x40_0000
    ensures ShiftLeft(s.node, NODE_OFFSET) == s.node * 0x8000
    ensures ShiftLeft(s.backTimes, COUNTER_BITS) == s.backTimes * 0x2000
  {
    OffsetValues();
  }

  /** The three getters take back what was packed, for clocks on either side of the epoch. */
  lemma GettersRecoverFields(s: State)
    requires Packable(s)
    ensures GetTimestamp(Pack(s)) == s.timestamp
    ensures GetNodeID(Pack(s)) == s.node
    ensures GetClockBackwardTimes(Pack(s)) == s.backTimes
  {
    PackIsSum(s);
    Pow2Values();
    MaskIsLowBits(NODE_BITS);
    MaskIsLowBits(CLOCK_BACK_BITS);
    var t, id := s.timestamp - EPOCH, Pack(s);
    ModFromQuotient(id, 0x40_0000, t, s.node * 0x8000 + s.backTimes * 0x2000 + s.sequence);
    var u := t * 0x80 + s.node;
    ModFromQuotient(id, 0x8000, u, s.backTimes * 0x2000 + s.sequence);
    var v := u * 4 + s.backTimes;
    ModFromQuotient(id, 0x2000, v, s.sequence);
    AndLowBits(u, NODE_BITS);
    AndLowBits(v, CLOCK_BACK_BITS);
    ModFromQuotient(u, 0x80, t, s.node);
    ModFromQuotient(v, 4, u, s.backTimes);
  }

  predicate FieldsLess(a: State, b: State) {
    a.timestamp < b.timestamp
    || (a.timestamp == b.timestamp
        && (a.node < b.node
            || (a.node == b.node
                && PairLess((a.backTimes, a.sequence), (b.backTimes, b.sequence)))))
  }

  /** Numeric order of IDs is the lexicographic order of (timestamp, node, rollback count, sequence). */
  lemma IdOrderIsFieldOrder(a: State, b: State)
    requires Packable(a) && Packable(b)
    ensures Pack(a) < Pack(b) <==> FieldsLess(a, b)
    ensures Pack(a) == Pack(b) <==> SameStamp(a, b) && a.node == b.node
  {
    PackIsSum(a);
    PackIsSum(b);
  }

  /** From the epoch on, and for 2^41 milliseconds, an ID is a 63-bit number. */
  lemma IdFits63Bits(s: State)
    requires Packable(s) && s.timestamp >= EPOCH
    ensures 0 <= Pack(s) < TWO_TO_THE_63
  {
    PackIsSum(s);
  }

  /** Every reading lies from `low` up to 2^41 milliseconds after the epoch. */
  predicate ClockInRange(clock: seq<int>, low: int) {
    forall k | 0 <= k < |clock| :: low <= clock[k] < EPOCH + TIMESTAMP_SPAN
  }

  /** The earliest instant that still packs without losing a bit. It lies before 1970. */
  const EARLIEST: int := EPOCH - TIMESTAMP_SPAN

  /** A clock that stays in range stamps in-range instants only. */
  lemma {:induction false} RunStaysInRange(s: State, clock: seq<int>, low: int)
    requires s.Valid() && low >= EARLIEST && ClockInRange(clock, low)
    requires s == Initial(s.node) || low <= s.timestamp < EPOCH + TIMESTAMP_SPAN
    ensures forall k | 0 <= k < |Run(s, clock)| ::
      var a := Run(s, clock)[k].after;
      Packable(a) && low <= a.timestamp && a.node == s.node
    decreases |clock|
  {
    CallKeepsValid(s, clock);
    var t := NextID(s, clock);
    if t.outcome.Issued? {
      CounterStep(s.sequence);
      RunStaysInRange(t.next, clock[t.outcome.used..], low);
    }
  }

  ghost predicate IdsDistinct(run: seq<Call>) {
    forall i, j | 0 <= i < j < |run| :: Pack(run[i].after) != Pack(run[j].after)
  }

  /** A fresh generator repeats an ID exactly when a rollback reopens an instant at its depth. */
  lemma IdsDistinctExactly(node: int, clock: seq<int>)
    requires 0 <= node < NODE_LIMIT && ClockInRange(clock, EARLIEST)
    ensures IdsDistinct(Run(Initial(node), clock)) <==> NoInstantReopened(Run(Initial(node), clock))
  {
    var run := Run(Initial(node), clock);
    RunStaysInRange(Initial(node), clock, EARLIEST);
    DistinctExactlyWhenNoInstantReopens(Initial(node), clock);
    forall i, j | 0 <= i < j < |run|
      ensures Pack(run[i].after) == Pack(run[j].after) <==> SameStamp(run[i].after, run[j].after)
    {
      IdOrderIsFieldOrder(run[i].after, run[j].after);
    }
  }

  /** IDs whose rollback field is 0 increase over the whole run; the field is the one the getter reads. */
  lemma UnrolledIdsIncrease(node: int, clock: seq<int>, i: nat, j: nat)
    requires 0 <= node < NODE_LIMIT && ClockInRange(clock, EARLIEST)
    requires i < j < |Run(Initial(node), clock)|
    ensures var a, b := Pack(Run(Initial(node), clock)[i].after), Pack(Run(Initial(node), clock)[j].after);
      GetClockBackwardTimes(a) == 0 == GetClockBackwardTimes(b) ==> a < b
  {
    var run := Run(Initial(node), clock);
    RunStaysInRange(Initial(node), clock, EARLIEST);
    GettersRecoverFields(run[i].after);
    GettersRecoverFields(run[j].after);
    IdOrderIsFieldOrder(run[i].after, run[j].after);
    if run[i].after.backTimes == 0 == run[j].after.backTimes {
      UnrolledIncrease(Initial(node), clock, i, j);
    }
  }

  /** Clocks that never show an instant before the epoch give 63-bit IDs. */
  lemma IdsFit63Bits(node: int, clock: seq<int>, k: nat)
    requires 0 <= node < NODE_LIMIT && ClockInRange(clock, EPOCH)
    requires k < |Run(Initial(node), clock)|
    ensures 0 <= Pack(Run(Initial(node), clock)[k].after) < TWO_TO_THE_63
  {
    RunStaysInRange(Initial(node), clock, EPOCH);
    IdFits63Bits(Run(Initial(node), clock)[k].after);
  }

  /** Generators on different nodes never return the same ID, whatever their clocks do in range. */
  lemma NodesNeverCollide(node: int, clock: seq<int>, node': int, clock': seq<int>, i: nat, j: nat)
    requires 0 <= node < NODE_LIMIT && 0 <= node' < NODE_LIMIT && node != node'
    requires ClockInRange(clock, EARLIEST) && ClockInRange(clock', EARLIEST)
    requires i < |Run(Initial(node), clock)| && j < |Run(Initial(node'), clock')|
    ensures Pack(Run(Initial(node), clock)[i].after) != Pack(Run(Initial(node'), clock')[j].after)
  {
    RunStaysInRange(Initial(node), clock, EARLIEST);
    RunStaysInRange(Initial(node'), clock', EARLIEST);
    IdOrderIsFieldOrder(Run(Initial(node), clock)[i].after, Run(Initial(node'), clock')[j].after);
  }

  /** Over any run: a call that stays on its instant counts up by one, and a call that leaves it starts at 0. */
  lemma SequencesCount(s: State, clock: seq<int>, k: nat)
    requires s.Valid() && k < |Run(s, clock)|
    ensures var c := Run(s, clock)[k];
      c.after.sequence == if c.after.timestamp == c.before.timestamp then c.before.sequence + 1 else 0
  {
    RunIsChained(s, clock);
    assert Link(Run(s, clock)[k]);
  }

  /** The low 13 bits of an ID are that number. */
  lemma LowBitsCount(node: int, clock: seq<int>, k: nat)
    requires 0 <= node < NODE_LIMIT && ClockInRange(clock, EARLIEST) && k < |Run(Initial(node), clock)|
    ensures var c := Run(Initial(node), clock)[k];
      Pack(c.after) % 8192 == if c.after.timestamp == c.before.timestamp then c.before.sequence + 1 else 0
  {
    var c := Run(Initial(node), clock)[k];
    RunStaysInRange(Initial(node), clock, EARLIEST);
    SequencesCount(Initial(node), clock, k);
    PackIsSum(c.after);
    var high := (c.after.timestamp - EPOCH) * 0x200 + c.after.node * 4 + c.after.backTimes;
    ModFromQuotient(Pack(c.after), 8192, high, c.after.sequence);
  }

  /** Two separate rollbacks to one instant return the same ID twice. */
  lemma TwoRollbacksToOneInstantRepeatAnId(node: int)
    requires 0 <= node < NODE_LIMIT
    ensures var run := Run(Initial(node), [EPOCH + 100, EPOCH + 50, EPOCH + 101, EPOCH + 50]);
      |run| == 4 && Pack(run[1].after) == Pack(run[3].after)
  {
    var c := [EPOCH + 100, EPOCH + 50, EPOCH + 101, EPOCH + 50];
    var s1 := State(node, 0, EPOCH + 100, [0, 0, 0], 0);
    assert NextID(Initial(node), c).next == s1;
    assert c[1..] == [EPOCH + 50, EPOCH + 101, EPOCH + 50];
    var s2 := State(node, 0, EPOCH + 50, [EPOCH + 100, 0, 0], 1);
    assert NextID(s1, c[1..]).next == s2;
    assert c[1..][1..] == [EPOCH + 101, EPOCH + 50];
    var s3 := State(node, 0, EPOCH + 101, [0, 0, 0], 0);
    assert NextID(s2, c[1..][1..]).next == s3;
    assert c[1..][1..][1..] == [EPOCH + 50];
    var s4 := State(node, 0, EPOCH + 50, [EPOCH + 101, 0, 0], 1);
    assert NextID(s3, c[1..][1..][1..]).next == s4;
    var r3 := Run(s3, c[1..][1..][1..]);
    assert Run(s4, []) == [];
    assert r3 == [Call(s3, EPOCH + 50, s4)] + Run(s4, c[1..][1..][1..][1..]);
    assert Run(s2, c[1..][1..]) == [Call(s2, EPOCH + 101, s3)] + r3;
    assert Run(s1, c[1..]) == [Call(s1, EPOCH + 50, s2)] + Run(s2, c[1..][1..]);
  }
}

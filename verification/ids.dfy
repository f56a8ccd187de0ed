/**
  The rollback-tolerant generator of 63-bit IDs (pkg/ids/int64.go).

  The wall clock is an input: `clock` lists the readings that successive calls of
  `time.Now().UnixMilli()` return, in any order whatever. A call that is still waiting for the
  next millisecond when the readings end is `Starved`.
 */
module Ids {
  import opened Bits

  const NODE_BITS: nat := 7
  const CLOCK_BACK_BITS: nat := 2
  const COUNTER_BITS: nat := 13
  const NODE_OFFSET: nat := CLOCK_BACK_BITS + COUNTER_BITS
  const TIME_OFFSET: nat := NODE_BITS + NODE_OFFSET
  const EPOCH: int := 1735660800000
  const MAX_BACK_TIMES: int := 3
  const TIMESTAMP_SPAN: int := 0x200_0000_0000
  const NODE_LIMIT: int := 127
  const SEQUENCE_LIMIT: int := 0x2000

  /** The package variables. */
  datatype State = State(node: int, sequence: int, timestamp: int, backPoints: seq<int>, backTimes: int) {

    predicate Valid() {
      && 0 <= node < NODE_LIMIT
      && 0 <= sequence < SEQUENCE_LIMIT
      && 0 <= backTimes <= MAX_BACK_TIMES
      && |backPoints| == 3
      // No rollback is pending, or the first one left a point at or after the epoch of Unix time.
      && (if backTimes == 0 then backPoints[0] == 0 && timestamp >= 0 else backPoints[0] >= 0)
    }
  }

  function Initial(node: int): State {
    State(node, 0, 0, [0, 0, 0], 0)
  }

  datatype Outcome =
    | Issued(id: int, used: nat) // the ID, and how many clock readings the call took
    | Starved
    | Crashed

  datatype Step = Step(next: State, outcome: Outcome)

  // ---------------------------------------------------------------- the bit layout

  function Pack(s: State): int {
    Or(Or(Or(ShiftLeft(s.timestamp - EPOCH, TIME_OFFSET), ShiftLeft(s.node, NODE_OFFSET)),
          ShiftLeft(s.backTimes, COUNTER_BITS)),
       s.sequence)
  }

  /** `IDGetTimestamp`, in milliseconds of Unix time. */
  function GetTimestamp(id: int): int {
    ShiftRight(id, TIME_OFFSET) + EPOCH
  }

  function GetNodeID(id: int): int {
    And(ShiftRight(id, NODE_OFFSET), Mask(NODE_BITS))
  }

  function GetClockBackwardTimes(id: int): int {
    And(ShiftRight(id, COUNTER_BITS), Mask(CLOCK_BACK_BITS))
  }

  // ---------------------------------------------------------------- one call

  /** The first reading at or after `from` that is not `timestamp`; |clock| when there is none. */
  function FirstOther(clock: seq<int>, from: nat, timestamp: int): (i: nat)
    requires from <= |clock|
    ensures from <= i <= |clock|
    ensures forall j :: from <= j < i ==> clock[j] == timestamp
    ensures i < |clock| ==> clock[i] != timestamp
    decreases |clock| - from
  {
    if from == |clock| || clock[from] != timestamp then from else FirstOther(clock, from + 1, timestamp)
  }

  predicate Recovers(s: State, reading: int)
    requires |s.backPoints| == 3
  {
    reading > s.backPoints[0] > 0
  }

  /** Wraps around to 0 when the millisecond has no number left. */
  function NextSequence(sequence: int): int {
    And(sequence + 1, Mask(COUNTER_BITS))
  }

  function Recover(s: State): State {
    s.(backPoints := [0, 0, 0], backTimes := 0)
  }

  function Issue(s: State, now: int, used: nat): Step {
    var next := s.(timestamp := now);
    Step(next, Issued(Pack(next), used))
  }

  function RollBack(s: State, now: int, used: nat): Step
    requires |s.backPoints| == 3 && 0 <= s.backTimes
  {
    var times := s.backTimes + 1;
    if times > MAX_BACK_TIMES then Step(s.(backTimes := times), Crashed)
    else Issue(s.(backTimes := times, backPoints := s.backPoints[times - 1 := s.timestamp]), now, used)
  }

  /** What one call of `NewID` does to the variables, and what it returns. */
  function NextID(s: State, clock: seq<int>): Step
    requires |s.backPoints| == 3 && 0 <= s.backTimes
  {
    if clock == [] then Step(s, Starved)
    else
      var r := if Recovers(s, clock[0]) then Recover(s) else s;
      var now := if clock[0] > s.backPoints[0] then clock[0] else s.timestamp;
      if now == r.timestamp then
        var r' := r.(sequence := NextSequence(r.sequence));
        if r'.sequence != 0 then Issue(r', now, 1)
        else
          var i := FirstOther(clock, 1, r.timestamp);
          if i == |clock| then Step(r', Starved)
          else if clock[i] < r.timestamp then RollBack(r', clock[i], i + 1)
          else Issue(r', clock[i], i + 1)
      else if now > r.timestamp then Issue(r.(sequence := 0), now, 1)
      else
        var b := RollBack(r, now, 1);
        if b.outcome.Crashed? then b else Issue(b.next.(sequence := 0), now, 1)
  }

  /** How a wait for the next millisecond ends: on reading i, not within the clock, or in a fourth rollback. */
  datatype Wait = Ended(i: nat) | StillWaiting | TooManyRollbacks

  class Generator {
    var node: int
    var sequence: int
    var timestamp: int
    const backPoints: array<int>
    var backTimes: int

    ghost predicate Valid()
      reads this, backPoints
    {
      backPoints.Length == 3 && Current().Valid()
    }

    function Current(): State
      reads this, backPoints
    {
      State(node, sequence, timestamp, backPoints[..], backTimes)
    }

    constructor ()
      ensures Valid() && Current() == Initial(0) && fresh(backPoints)
    {
      node, sequence, timestamp, backTimes := 0, 0, 0, 0;
      backPoints := new int[3][0, 0, 0];
    }

    /** `IDSetNodeID`: the node number is checked against a limit one lower than its field holds. */
    method SetNodeID(nodeID: int) returns (ok: bool)
      requires Valid()
      modifies this`node
      ensures Valid()
      ensures ok <==> 0 <= nodeID < 127
      ensures Current() == if ok then old(Current()).(node := nodeID) else old(Current())
    {
      MaskIsLowBits(NODE_BITS);
      Pow2Values();
      if nodeID < 0 || nodeID >= Mask(NODE_BITS) {
        return false;
      }
      node := nodeID;
      return true;
    }

    /** The sleep-and-look loop of a call whose millisecond has no number left: it ends on another instant. */
    method AwaitOtherInstant(clock: seq<int>, from: nat) returns (i: nat)
      requires from <= |clock|
      ensures i == FirstOther(clock, from, timestamp)
    {
      i := from;
      while i < |clock| && clock[i] == timestamp
        invariant from <= i <= |clock|
        invariant FirstOther(clock, from, timestamp) == FirstOther(clock, i, timestamp)
      {
        i := i + 1;
      }
    }

    /** Counts one more rollback and notes where it began; a fourth one ends the process. */
    method NoteRollback() returns (ok: bool)
      requires backPoints.Length == 3 && 0 <= backTimes <= MAX_BACK_TIMES
      modifies this`backTimes, backPoints
      ensures ok <==> old(backTimes) < MAX_BACK_TIMES
      ensures var s, times := old(Current()), old(backTimes);
        Current() == if ok then s.(backTimes := times + 1, backPoints := s.backPoints[times := timestamp])
                     else s.(backTimes := times + 1)
    {
      backTimes := backTimes + 1;
      if backTimes > 3 {
        return false;
      }
      backPoints[backTimes - 1] := timestamp;
      return true;
    }

    /** The instant a call goes by: a rollback that has been caught up is forgotten, one that has not freezes time. */
    method Observe(reading: int) returns (now: int)
      requires Valid()
      modifies this`backTimes, backPoints
      ensures Current() == if Recovers(old(Current()), reading) then Recover(old(Current())) else old(Current())
      ensures now == if reading > old(backPoints[0]) then reading else timestamp
    {
      if reading <= backPoints[0] {
        return timestamp;
      }
      now := reading;
      if backPoints[0] > 0 {
        backPoints[0] := 0;
        backPoints[1] := 0;
        backPoints[2] := 0;
        backTimes := 0;
        assert backPoints[..] == [0, 0, 0];
      }
    }

    /** Waits for another instant; one that lies behind is a rollback. */
    method AwaitNext(clock: seq<int>) returns (wait: Wait)
      requires |clock| > 0 && Valid()
      modifies this`backTimes, backPoints
      ensures var s, i := old(Current()), FirstOther(clock, 1, timestamp);
        if i == |clock| then wait == StillWaiting && Current() == s
        else if clock[i] > timestamp then wait == Ended(i) && Current() == s
        else
          var b := RollBack(s, clock[i], i + 1);
          if b.outcome.Crashed? then wait == TooManyRollbacks && Current() == b.next
          else wait == Ended(i) && Current().(timestamp := clock[i]) == b.next
    {
      var i := AwaitOtherInstant(clock, 1);
      if i == |clock| {
        return StillWaiting;
      }
      if clock[i] < timestamp {
        var ok := NoteRollback();
        if !ok {
          return TooManyRollbacks;
        }
      }
      return Ended(i);
    }

    /** The end of a call: the instant is noted, and the ID made of the fields. */
    method Stamp(now: int, used: nat) returns (outcome: Outcome)
      modifies this`timestamp
      ensures Step(Current(), outcome) == Issue(old(Current()), now, used)
    {
      timestamp := now;
      outcome := Issued(Pack(Current()), used);
    }

    method NewID(clock: seq<int>) returns (outcome: Outcome)
      requires Valid()
      modifies this, backPoints
      ensures Step(Current(), outcome) == NextID(old(Current()), clock)
    {
      if |clock| == 0 {
        return Starved;
      }
      var now := Observe(clock[0]);
      var used := 1;
      if now == timestamp {
        sequence := NextSequence(sequence);
        if sequence == 0 {
          var wait := AwaitNext(clock);
          match wait {
            case StillWaiting => return Starved;
            case TooManyRollbacks => return Crashed;
            case Ended(i) => now, used := clock[i], i + 1;
          }
        }
      } else if now > timestamp {
        sequence := 0;
      } else {
        var ok := NoteRollback();
        if !ok {
          return Crashed;
        }
        sequence := 0;
      }
      outcome := Stamp(now, used);
    }
  }

  lemma CounterStep(sequence: int)
    requires 0 <= sequence < SEQUENCE_LIMIT
    ensures NextSequence(sequence) == if sequence + 1 == SEQUENCE_LIMIT then 0 else sequence + 1
  {
    MaskIsLowBits(COUNTER_BITS);
    Pow2Values();
    AndLowBits(sequence + 1, COUNTER_BITS);
    if sequence + 1 == SEQUENCE_LIMIT {
      ModFromQuotient(sequence + 1, 0x2000, 1, 0);
    } else {
      ModFromQuotient(sequence + 1, 0x2000, 0, sequence + 1);
    }
  }

  lemma RollBackKeepsValid(s: State, now: int, used: nat)
    requires s.Valid()
    ensures var t := RollBack(s, now, used);
      && t.next.node == s.node && t.next.sequence == s.sequence
      && (!t.outcome.Crashed? ==> t.next.Valid() && t.outcome == Issued(Pack(t.next), used))
      && (t.outcome.Crashed? ==> s.backTimes == MAX_BACK_TIMES)
  {
  }

  lemma CallKeepsValid(s: State, clock: seq<int>)
    requires s.Valid()
    ensures var t := NextID(s, clock);
      && (!t.outcome.Crashed? ==> t.next.Valid())
      && t.next.node == s.node
      && (t.outcome.Issued? ==> 1 <= t.outcome.used <= |clock| && t.outcome.id == Pack(t.next))
      && (t.outcome.Crashed? ==> s.backTimes == MAX_BACK_TIMES)
  {
    CounterStep(s.sequence);
    if clock != [] {
      var r := if Recovers(s, clock[0]) then Recover(s) else s;
      var now := if clock[0] > s.backPoints[0] then clock[0] else s.timestamp;
      if now < r.timestamp {
        RollBackKeepsValid(r, now, 1);
      } else if now == r.timestamp && r.sequence + 1 == SEQUENCE_LIMIT {
        assert r.Valid();
        var i := FirstOther(clock, 1, r.timestamp);
        if i < |clock| && clock[i] < r.timestamp {
          RollBackKeepsValid(r.(sequence := 0), clock[i], i + 1);
        }
      }
    }
  }
}

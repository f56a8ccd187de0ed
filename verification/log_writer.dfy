/**
  The batching log writer (internal/pkg/features/logging/writer.go), from `init` until shutdown.

  The goroutine `listen` takes one event at a time: a record from the channel, or the timer. The
  timer is created once with `NewTimer` and never reset, so it fires at most once.
 */
module LogWriter {
  import opened Wrappers
  import opened Bits

  // ---------------------------------------------------------------- the writer as a value

  datatype State<T> = State(maxCount: int, bufferSize: int, channel: seq<T>, buffer: seq<T>, batches: seq<seq<T>>, timerPending: bool) {

    predicate Valid() {
      && maxCount >= 1 && bufferSize >= 1
      && |buffer| < maxCount && |channel| <= bufferSize
      && forall k | 0 <= k < |batches| :: 1 <= |batches[k]| <= maxCount
    }
  }

  /** `init`: unusable options fall back to the defaults. */
  function Initial<T>(maxCount: int, bufferSize: int): State<T> {
    State(if maxCount < 1 then 1 else maxCount, if bufferSize < 1 then 1000 else bufferSize, [], [], [], true)
  }

  function Flushed<T>(s: State<T>): State<T> {
    if s.buffer == [] then s else s.(buffer := [], batches := s.batches + [s.buffer])
  }

  function Received<T>(s: State<T>): State<T>
    requires s.channel != []
  {
    var t := s.(channel := s.channel[1..], buffer := s.buffer + [s.channel[0]]);
    if |t.buffer| >= t.maxCount then Flushed(t) else t
  }

  function TimerFired<T>(s: State<T>): State<T> {
    Flushed(s.(timerPending := false))
  }

  // ---------------------------------------------------------------- the objects

  class ServiceLog {
    const message: string
    var id: int
    var service: string
    var createdAt: int

    constructor (message: string)
      ensures this.message == message
    {
      this.message, id, service, createdAt := message, 0, "", 0;
    }
  }

  class Writer {
    const serviceName: string
    var maxCount: int
    var bufferSize: int
    var channel: seq<ServiceLog>
    var bufferedLogs: seq<ServiceLog>
    var stored: seq<seq<ServiceLog>>
    var timerPending: bool

    function Value(): State<ServiceLog>
      reads this
    {
      State(maxCount, bufferSize, channel, bufferedLogs, stored, timerPending)
    }

    /** A writer made by `Start`, with its options applied and `init` run. */
    constructor (serviceName: string, maxCount: int, bufferSize: int)
      ensures this.serviceName == serviceName && Value() == Initial(maxCount, bufferSize)
      ensures this.maxCount == (if maxCount >= 1 then maxCount else 1)
      ensures this.bufferSize == (if bufferSize >= 1 then bufferSize else 1000)
    {
      this.serviceName := serviceName;
      this.maxCount := if maxCount < 1 then 1 else maxCount;
      this.bufferSize := if bufferSize < 1 then 1000 else bufferSize;
      channel, bufferedLogs, stored, timerPending := [], [], [], true;
    }

    /** A send to the channel; it would block, and changes nothing, while the channel is full. */
    method Post(log: ServiceLog) returns (sent: bool)
      modifies this`channel
      ensures sent <==> |old(channel)| < bufferSize
      ensures channel == if sent then old(channel) + [log] else old(channel)
    {
      sent := |channel| < bufferSize;
      if sent {
        channel := channel + [log];
      }
    }

    /**
      Stamps the buffered records, hands them to the store as one batch, and empties the buffer. A
      store that fails is only reported. `newId(k)` is the k-th new id.
     */
    method Flush(newId: nat -> int, now: int)
      modifies this`bufferedLogs, this`stored, bufferedLogs
      ensures Value() == Flushed(old(Value()))
      ensures forall log | log in old(bufferedLogs) :: log.service == serviceName && log.createdAt == now
      ensures NoRepeats(old(bufferedLogs)) ==> forall k | 0 <= k < |old(bufferedLogs)| :: old(bufferedLogs)[k].id == newId(k)
    {
      if |bufferedLogs| == 0 {
        return;
      }
      for k := 0 to |bufferedLogs|
        invariant Value() == old(Value())
        invariant forall j | 0 <= j < k :: bufferedLogs[j].service == serviceName && bufferedLogs[j].createdAt == now
        invariant NoRepeats(bufferedLogs) ==> forall j | 0 <= j < k :: bufferedLogs[j].id == newId(j)
      {
        var log := bufferedLogs[k];
        log.id := newId(k);
        log.service := serviceName;
        log.createdAt := now;
      }
      stored := stored + [bufferedLogs];
      bufferedLogs := [];
    }

    /** `listen` on a record: buffer it, and flush when the batch is full. */
    method Receive(newId: nat -> int, now: int)
      requires channel != []
      modifies this`channel, this`bufferedLogs, this`stored, bufferedLogs, channel
      ensures Value() == Received(old(Value()))
      ensures channel == old(channel)[1..]
      ensures var filled := old(bufferedLogs) + [old(channel)[0]];
        if |filled| >= maxCount then bufferedLogs == [] && stored == old(stored) + [filled]
        else bufferedLogs == filled && stored == old(stored)
    {
      bufferedLogs := bufferedLogs + [channel[0]];
      channel := channel[1..];
      if |bufferedLogs| >= maxCount {
        Flush(newId, now);
      }
    }

    /** `listen` on the timer. */
    method OnTimer(newId: nat -> int, now: int)
      modifies this`bufferedLogs, this`stored, this`timerPending, bufferedLogs
      ensures Value() == TimerFired(old(Value()))
      ensures bufferedLogs == [] && !timerPending && channel == old(channel)
      ensures stored == if old(bufferedLogs) == [] then old(stored) else old(stored) + [old(bufferedLogs)]
    {
      timerPending := false;
      Flush(newId, now);
    }
  }

  // ---------------------------------------------------------------- runs

  datatype Event<T> = Post(log: T) | Receive | Timer

  /** An event that is not enabled (a full channel, an empty one, a timer that has fired) does not happen. */
  predicate Enabled<T>(s: State<T>, e: Event<T>) {
    match e
    case Post(_) => |s.channel| < s.bufferSize
    case Receive => s.channel != []
    case Timer => s.timerPending
  }

  function Do<T>(s: State<T>, e: Event<T>): State<T> {
    if !Enabled(s, e) then s
    else
      match e
      case Post(log) => s.(channel := s.channel + [log])
      case Receive => Received(s)
      case Timer => TimerFired(s)
  }

  function Run<T>(s: State<T>, events: seq<Event<T>>): State<T>
    decreases |events|
  {
    if events == [] then s else Run(Do(s, events[0]), events[1..])
  }

  /** The records of the posts that went through, in order. */
  function Posted<T>(s: State<T>, events: seq<Event<T>>): seq<T>
    decreases |events|
  {
    if events == [] then []
    else (if events[0].Post? && Enabled(s, events[0]) then [events[0].log] else []) + Posted(Do(s, events[0]), events[1..])
  }

  function Flatten<T>(batches: seq<seq<T>>): seq<T> {
    if batches == [] then [] else Flatten(batches[..|batches| - 1]) + batches[|batches| - 1]
  }

  /** Everything the writer has been given: stored batches, then the buffer, then the channel. */
  function Contents<T>(s: State<T>): seq<T> {
    Flatten(s.batches) + (s.buffer + s.channel)
  }

  /** What each event does, and when it can happen. */
  lemma EventExactly<T>(s: State<T>, e: Event<T>)
    ensures var t := Do(s, e);
      && t.maxCount == s.maxCount && t.bufferSize == s.bufferSize
      && match e
         case Post(log) => t == if |s.channel| < s.bufferSize then s.(channel := s.channel + [log]) else s
         case Receive =>
           if s.channel == [] then t == s
           else
             var filled := s.buffer + [s.channel[0]];
             && t.channel == s.channel[1..] && t.timerPending == s.timerPending
             && (if |filled| >= s.maxCount then t.buffer == [] && t.batches == s.batches + [filled]
                 else t.buffer == filled && t.batches == s.batches)
         case Timer =>
           if !s.timerPending then t == s
           else t == s.(timerPending := false, buffer := [], batches := if s.buffer == [] then s.batches else s.batches + [s.buffer])
  {
  }

  lemma FlushMovesNothing<T>(s: State<T>)
    ensures Contents(Flushed(s)) == Contents(s)
  {
    if s.buffer != [] {
      var t := Flushed(s);
      assert t.batches[..|t.batches| - 1] == s.batches;
      assert Flatten(t.batches) == Flatten(s.batches) + s.buffer;
    }
  }

  lemma EventConserves<T>(s: State<T>, e: Event<T>)
    requires s.Valid()
    ensures Do(s, e).Valid()
    ensures Contents(Do(s, e)) == Contents(s) + (if e.Post? && Enabled(s, e) then [e.log] else [])
  {
    if Enabled(s, e) {
      match e
      case Post(log) =>
      case Receive =>
        var t := s.(channel := s.channel[1..], buffer := s.buffer + [s.channel[0]]);
        assert t.buffer + t.channel == s.buffer + s.channel;
        FlushMovesNothing(t);
      case Timer =>
        FlushMovesNothing(s.(timerPending := false));
    }
  }

  lemma {:induction false} RunConserves<T>(s: State<T>, events: seq<Event<T>>)
    requires s.Valid()
    ensures Run(s, events).Valid()
    ensures Contents(Run(s, events)) == Contents(s) + Posted(s, events)
    decreases |events|
  {
    if events != [] {
      EventConserves(s, events[0]);
      RunConserves(Do(s, events[0]), events[1..]);
    }
  }

  /**
    Nothing is lost, repeated or reordered: after any events the posted records are the stored
    batches, then the buffer, then the channel; batches hold 1 to maxCount records and the buffer
    stays below maxCount.
   */
  lemma LogsAreConserved<T>(maxCount: int, bufferSize: int, events: seq<Event<T>>)
    ensures var s := Run(Initial<T>(maxCount, bufferSize), events);
      && Flatten(s.batches) + (s.buffer + s.channel) == Posted(Initial<T>(maxCount, bufferSize), events)
      && s.Valid() && (maxCount >= 1 ==> s.maxCount == maxCount)
  {
    RunConserves(Initial<T>(maxCount, bufferSize), events);
    OptionsStay(Initial<T>(maxCount, bufferSize), events);
  }

  lemma {:induction false} OptionsStay<T>(s: State<T>, events: seq<Event<T>>)
    ensures Run(s, events).maxCount == s.maxCount && Run(s, events).bufferSize == s.bufferSize
    decreases |events|
  {
    if events != [] {
      OptionsStay(Do(s, events[0]), events[1..]);
    }
  }

  // ---------------------------------------------------------------- the timer fires once

  function Partial<T>(batches: seq<seq<T>>, maxCount: int): nat {
    if batches == [] then 0
    else Partial(batches[..|batches| - 1], maxCount) + (if |batches[|batches| - 1]| < maxCount then 1 else 0)
  }

  lemma EventAddsPartial<T>(s: State<T>, e: Event<T>)
    requires s.Valid()
    ensures var t := Do(s, e);
      Partial(t.batches, s.maxCount) + (if t.timerPending then 1 else 0)
      <= Partial(s.batches, s.maxCount) + (if s.timerPending then 1 else 0)
  {
    var t := Do(s, e);
    if t.batches != s.batches {
      assert t.batches[..|t.batches| - 1] == s.batches;
    }
  }

  lemma {:induction false} RunAddsPartial<T>(s: State<T>, events: seq<Event<T>>)
    requires s.Valid()
    ensures Partial(Run(s, events).batches, s.maxCount) <= Partial(s.batches, s.maxCount) + (if s.timerPending then 1 else 0)
    decreases |events|
  {
    if events != [] {
      EventConserves(s, events[0]);
      EventAddsPartial(s, events[0]);
      OptionsStay(s, [events[0]]);
      RunAddsPartial(Do(s, events[0]), events[1..]);
    }
  }

  /** In a whole run at most one batch is not full. */
  lemma AtMostOnePartialBatch<T>(maxCount: int, bufferSize: int, events: seq<Event<T>>)
    ensures var s := Run(Initial<T>(maxCount, bufferSize), events); Partial(s.batches, s.maxCount) <= 1
  {
    RunAddsPartial(Initial<T>(maxCount, bufferSize), events);
    OptionsStay(Initial<T>(maxCount, bufferSize), events);
  }

  /** How many records the loop takes from the channel. */
  function Receipts<T>(s: State<T>, events: seq<Event<T>>): nat
    decreases |events|
  {
    if events == [] then 0
    else (if events[0].Receive? && Enabled(s, events[0]) then 1 else 0) + Receipts(Do(s, events[0]), events[1..])
  }

  lemma FullBatch(n: nat, m: nat)
    requires m > 0
    ensures (m + n) / m == 1 + n / m
  {
    AddMultiple(n, m, 1);
  }

  lemma NoFullBatch(n: nat, m: nat)
    requires n < m
    ensures n / m == 0
  {
    ModFromQuotient(n, m, 0, n);
  }

  /** Once the timer has fired, the loop hands over one batch for every maxCount records it has taken, and no other. */
  lemma {:induction false} BatchesAreFullExactly<T>(s: State<T>, events: seq<Event<T>>)
    requires s.Valid() && !s.timerPending
    ensures var t := Run(s, events);
      && |t.batches| == |s.batches| + (|s.buffer| + Receipts(s, events)) / s.maxCount
      && t.batches[..|s.batches|] == s.batches
    decreases |events|
  {
    if events == [] {
      NoFullBatch(|s.buffer|, s.maxCount);
    } else {
      var next := Do(s, events[0]);
      EventConserves(s, events[0]);
      BatchesAreFullExactly(next, events[1..]);
      assert next.batches[..|s.batches|] == s.batches;
      if next.batches != s.batches {
        assert |s.buffer| + Receipts(s, events) == s.maxCount + Receipts(next, events[1..]);
        FullBatch(Receipts(next, events[1..]), s.maxCount);
      }
    }
  }

  /**
    Once the timer has fired, records wait for a full batch: nothing is handed to the store if and
    only if the buffer and the records taken from the channel are fewer than maxCount together.
   */
  lemma WaitingRecordsStayExactly<T>(s: State<T>, events: seq<Event<T>>)
    requires s.Valid() && !s.timerPending
    ensures Run(s, events).batches == s.batches <==> |s.buffer| + Receipts(s, events) < s.maxCount
  {
    BatchesAreFullExactly(s, events);
    var n := |s.buffer| + Receipts(s, events);
    if n < s.maxCount {
      NoFullBatch(n, s.maxCount);
    } else {
      FullBatch(n - s.maxCount, s.maxCount);
    }
  }

  /** Whoever has posted fewer records than fill a batch waits, whatever the loop takes. */
  lemma {:induction false} WaitingRecordsStay<T>(s: State<T>, events: seq<Event<T>>)
    requires s.Valid() && !s.timerPending
    requires |s.buffer| + |s.channel| + |Posted(s, events)| < s.maxCount
    ensures Run(s, events).batches == s.batches
    decreases |events|
  {
    if events != [] {
      EventConserves(s, events[0]);
      WaitingRecordsStay(Do(s, events[0]), events[1..]);
    }
  }
}

/**
  The hub's objects: lines with their two channels, the list of lines of one user, and the
  registry with its register, unregister and sweep handlers (pkg/hub/hub.go, pkg/hub/user_lines.go).

  The handlers run without interruption here; module HubProtocol interleaves their steps. A send
  on a closed channel panics in Go, so `Send` requires an open one.
 */
module Hub {
  import opened Wrappers
  import opened HubState

  class Channel<T> {
    var closed: bool
    var queue: seq<T>

    constructor ()
      ensures !closed && queue == []
    {
      closed, queue := false, [];
    }

    method Send(x: T)
      requires !closed
      modifies this`queue
      ensures queue == old(queue) + [x]
    {
      queue := queue + [x];
    }

    method Close()
      requires !closed
      modifies this`closed
      ensures closed
    {
      closed := true;
    }
  }

  type Data = seq<bv8>

  class Line {
    const ref: LineRef
    var lastActive: int
    var isClosed: bool
    var closeChan: Channel?<()>
    var writeChan: Channel?<Data>

    constructor (ref: LineRef, lastActive: int)
      ensures this.ref == ref && this.lastActive == lastActive && !isClosed && closeChan == null && writeChan == null
    {
      this.ref, this.lastActive := ref, lastActive;
      isClosed, closeChan, writeChan := false, null, null;
    }
  }

  /** Which lines a push or a close is for; the variadic forms do nothing at all on an empty list. */
  datatype Selector =
    | All
    | Platforms(platforms: seq<int>)
    | ExceptPlatforms(platforms: seq<int>)
    | Ids(ids: seq<string>)
    | ExceptIds(ids: seq<string>)
    | IdleFor(seconds: int, now: LineRef -> int) // the clock, in seconds, when the line is looked at
  {
    predicate Inert() {
      match this
      case All => false
      case Platforms(ps) => ps == []
      case ExceptPlatforms(ps) => ps == []
      case Ids(ids) => ids == []
      case ExceptIds(ids) => ids == []
      case IdleFor(seconds, _) => seconds <= 0
    }

    predicate Selects(ref: LineRef, lastActive: int) {
      match this
      case All => true
      case Platforms(ps) => ref.platform in ps
      case ExceptPlatforms(ps) => ref.platform !in ps
      case Ids(ids) => ref.id in ids
      case ExceptIds(ids) => ref.id !in ids
      case IdleFor(seconds, now) => now(ref) - lastActive > seconds
    }
  }

  const SECOND: int := 1_000_000_000

  /** `int64(connMaxIdleTime)`: the hub stores the nanoseconds of a duration as its number of seconds. */
  function StoredIdleLimit(connMaxIdleTime: int): int {
    connMaxIdleTime
  }

  predicate ClosedBySweep(connMaxIdleTime: int, ref: LineRef, lastActive: int, now: LineRef -> int) {
    var idle := IdleFor(StoredIdleLimit(connMaxIdleTime), now);
    !idle.Inert() && idle.Selects(ref, lastActive)
  }

  /**
    A hub that is configured with n seconds closes a line only after n thousand million of them.
    It does what it is configured for exactly when n is not positive, or the line has been idle for
    at most n seconds, or for more than n thousand million.
   */
  lemma IdleLimitIsTooLong(n: int, ref: LineRef, lastActive: int, now: LineRef -> int)
    ensures var idle := now(ref) - lastActive;
      && (ClosedBySweep(n * SECOND, ref, lastActive, now) <==> n > 0 && idle > n * SECOND)
      && ((ClosedBySweep(n * SECOND, ref, lastActive, now) <==> n > 0 && idle > n)
          <==> n <= 0 || idle <= n || idle > n * SECOND)
  {
  }

  function Refs(lines: seq<Line>): (r: seq<LineRef>)
    ensures |r| == |lines| && forall k | 0 <= k < |lines| :: r[k] == lines[k].ref
  {
    seq(|lines|, k requires 0 <= k < |lines| => lines[k].ref)
  }

  class UserLines {
    var lines: seq<Line>
    var lineCount: int

    function Value(): Lines
      reads this
    {
      Lines(Refs(lines), lineCount)
    }

    constructor ()
      ensures lines == [] && lineCount == 0
    {
      lines, lineCount := [], 0;
    }

    method Add(line: Line)
      modifies this
      ensures lines == old(lines) + [line]
      ensures Value() == Added(old(Value()), line.ref)
    {
      lines := lines + [line];
      lineCount := lineCount + 1;
      assert Refs(lines) == Refs(old(lines)) + [line.ref];
    }

    method Remove(lineId: string)
      modifies this
      ensures Value() == Removed(old(Value()), lineId)
      ensures forall ln :: ln in lines <==> ln in old(lines) && ln.ref.id != lineId
      ensures NoRepeats(old(lines)) ==> NoRepeats(lines)
    {
      var kept: seq<Line> := [];
      ghost var refs := Refs(lines);
      for k := 0 to |lines|
        invariant unchanged(this)
        invariant Refs(kept) == Without(refs[..k], lineId)
        invariant forall ln :: ln in kept <==> ln in lines[..k] && ln.ref.id != lineId
        invariant NoRepeats(lines) ==> NoRepeats(kept)
      {
        WithoutAppend(refs[..k], lines[k].ref, lineId);
        assert refs[..k + 1] == refs[..k] + [lines[k].ref];
        assert lines[..k + 1] == lines[..k] + [lines[k]];
        if lines[k].ref.id != lineId {
          assert Refs(kept + [lines[k]]) == Refs(kept) + [lines[k].ref];
          kept := kept + [lines[k]];
        }
      }
      assert refs[..|lines|] == refs && lines[..|lines|] == lines;
      assert old(Value()).refs == refs && Refs(kept) == Without(refs, lineId);
      lines := kept;
      lineCount := lineCount - 1;
    }

    /** The first line with the id. */
    method Get(lineId: string) returns (line: Line?)
      ensures line == null <==> forall k | 0 <= k < |lines| :: lines[k].ref.id != lineId
      ensures line != null ==> exists k | 0 <= k < |lines| ::
                lines[k] == line && line.ref.id == lineId && forall j | 0 <= j < k :: lines[j].ref.id != lineId
    {
      for k := 0 to |lines|
        invariant forall j | 0 <= j < k :: lines[j].ref.id != lineId
      {
        if lines[k].ref.id == lineId {
          return lines[k];
        }
      }
      return null;
    }

    /** No two lines share a channel, and a channel that is still in its field is open. */
    ghost predicate ChannelsReady()
      reads this, lines, set ln | ln in lines && ln.writeChan != null :: ln.writeChan,
            set ln | ln in lines && ln.closeChan != null :: ln.closeChan
    {
      && (forall k | 0 <= k < |lines| ::
            && (lines[k].writeChan != null ==> !lines[k].writeChan.closed)
            && (lines[k].closeChan != null ==> !lines[k].closeChan.closed))
      && (forall j, k | 0 <= j < k < |lines| ::
            && (lines[j].writeChan != null ==> lines[j].writeChan != lines[k].writeChan)
            && (lines[j].closeChan != null ==> lines[j].closeChan != lines[k].closeChan))
    }

    /**
      `PushMessage` and its four variants: every selected line that is open gets the data once,
      at the end of its queue, and nobody else gets anything.
     */
    method PushMessage(data: Data, to: Selector, hubClosed: bool)
      requires ChannelsReady()
      modifies set ln | ln in lines && ln.writeChan != null :: ln.writeChan`queue
      ensures forall k | 0 <= k < |lines| && lines[k].writeChan != null ::
        var line := lines[k];
        var reached: bool := match to
                                 case All => true
                                 case Platforms(ps) => line.ref.platform in ps
                                 case ExceptPlatforms(ps) => ps != [] && line.ref.platform !in ps
                                 case Ids(ids) => line.ref.id in ids
                                 case ExceptIds(ids) => ids != [] && line.ref.id !in ids
                                 case IdleFor(limit, now) => limit > 0 && now(line.ref) - line.lastActive > limit;
        line.writeChan.queue == old(lines[k].writeChan.queue) +
          (if data != [] && reached && !line.isClosed && !hubClosed then [data] else [])
    {
      if data == [] || to.Inert() {
        return;
      }
      for k := 0 to |lines|
        invariant forall j | 0 <= j < |lines| && lines[j].writeChan != null ::
          lines[j].writeChan.queue == old(lines[j].writeChan.queue) +
            (if j < k && !lines[j].isClosed && !hubClosed && to.Selects(lines[j].ref, lines[j].lastActive)
             then [data] else [])
      {
        var line := lines[k];
        if line.isClosed || hubClosed || line.writeChan == null {
          continue;
        }
        if to.Selects(line.ref, line.lastActive) {
          line.writeChan.Send(data);
        }
      }
    }

    /** `CloseAll`, its four variants and `closeInactiveLines`: the same with a close command. */
    method CloseLines(which: Selector)
      requires ChannelsReady()
      modifies set ln | ln in lines && ln.closeChan != null :: ln.closeChan`queue
      ensures forall k | 0 <= k < |lines| && lines[k].closeChan != null ::
        var line := lines[k];
        var reached: bool := match which
                                 case All => true
                                 case Platforms(ps) => line.ref.platform in ps
                                 case ExceptPlatforms(ps) => ps != [] && line.ref.platform !in ps
                                 case Ids(ids) => line.ref.id in ids
                                 case ExceptIds(ids) => ids != [] && line.ref.id !in ids
                                 case IdleFor(limit, now) => limit > 0 && now(line.ref) - line.lastActive > limit;
        line.closeChan.queue == old(lines[k].closeChan.queue) + (if reached && !line.isClosed then [()] else [])
    {
      if which.Inert() {
        return;
      }
      for k := 0 to |lines|
        invariant forall j | 0 <= j < |lines| && lines[j].closeChan != null ::
          lines[j].closeChan.queue == old(lines[j].closeChan.queue) +
            (if j < k && !lines[j].isClosed && which.Selects(lines[j].ref, lines[j].lastActive) then [()] else [])
      {
        var line := lines[k];
        if line.isClosed || line.closeChan == null {
          continue;
        }
        if which.Selects(line.ref, line.lastActive) {
          line.closeChan.Send(());
        }
      }
    }
  }

  lemma UpdateTwice(users: map<string, Lines>, user: string, u: Lines, v: Lines)
    ensures users[user := u][user := v] == users[user := v]
  {
  }

  lemma UpdateThenRemove(users: map<string, Lines>, user: string, u: Lines)
    ensures users[user := u] - {user} == users - {user}
  {
  }

  // ---------------------------------------------------------------- the channels of the registered lines

  ghost function ChansOf(lines: set<Line>): set<object>
    reads lines
  {
    (set ln: Line | ln in lines && ln.closeChan != null :: ln.closeChan as object)
    + (set ln: Line | ln in lines && ln.writeChan != null :: ln.writeChan as object)
  }

  /** A channel that is still in its field is open, and no other line has it. */
  ghost predicate ChansReady(lines: set<Line>)
    reads lines, ChansOf(lines)
  {
    && (forall a | a in lines ::
          && (a.writeChan != null ==> !a.writeChan.closed)
          && (a.closeChan != null ==> !a.closeChan.closed))
    && (forall a, b | a in lines && b in lines && a != b ::
          && (a.writeChan != null ==> a.writeChan != b.writeChan)
          && (a.closeChan != null ==> a.closeChan != b.closeChan))
  }

  class Hub {
    var connections: map<string, UserLines>
    var connCount: int
    const connMaxIdleSeconds: int
    ghost var known: set<Line> // every line that was ever registered

    /** A user's list holds registered lines of that user, each once. */
    ghost predicate ListsReady()
      reads this, connections.Values
    {
      && (forall u, v | u in connections && v in connections && u != v :: connections[u] != connections[v])
      && (forall u | u in connections ::
            NoRepeats(connections[u].lines)
            && forall ln | ln in connections[u].lines :: ln in known && ln.ref.user == u)
    }

    ghost predicate Valid()
      reads this, connections.Values, known, ChansOf(known)
    {
      ListsReady() && ChansReady(known)
    }

    /** Whoever pushes to a user's list, or closes its lines, finds it ready. */
    lemma ListedLinesAreReady(user: string)
      requires Valid() && user in connections
      ensures connections[user].ChannelsReady()
    {
      var lines := connections[user].lines;
      assert forall k | 0 <= k < |lines| :: lines[k] in lines;
      assert forall j, k | 0 <= j < k < |lines| :: lines[j] != lines[k];
    }

    function Value(): Registry
      reads this, connections.Values
    {
      Registry(map u | u in connections :: connections[u].Value(), connCount)
    }

    constructor (connMaxIdleTime: int)
      ensures Valid() && Value() == Registry(map[], 0) && known == {}
      ensures connMaxIdleSeconds == StoredIdleLimit(connMaxIdleTime)
    {
      connMaxIdleSeconds := connMaxIdleTime;
      connections, connCount, known := map[], 0, {};
    }

    /** The first step of the register handler: both channels exist before the line is listed. */
    method MakeLineChans(ln: Line)
      requires ChansReady(known) && ln !in known
      modifies ln`closeChan, ln`writeChan
      ensures ChansReady(known + {ln})
      ensures ln.closeChan != null && fresh(ln.closeChan) && !ln.closeChan.closed && ln.closeChan.queue == []
      ensures ln.writeChan != null && fresh(ln.writeChan) && !ln.writeChan.closed && ln.writeChan.queue == []
    {
      ln.closeChan := new Channel();
      ln.writeChan := new Channel();
    }

    ghost method Know(ln: Line)
      requires ListsReady()
      modifies this`known
      ensures ListsReady() && known == old(known) + {ln} && Value() == old(Value())
    {
      known := known + {ln};
    }

    /** Both of these; no list and no counter changes. */
    method Admit(ln: Line)
      requires Valid() && ln !in known
      modifies this`known, ln`closeChan, ln`writeChan
      ensures Valid() && known == old(known) + {ln} && Value() == old(Value()) && !IsListed(ln)
      ensures ln.closeChan != null && fresh(ln.closeChan) && !ln.closeChan.closed && ln.closeChan.queue == []
      ensures ln.writeChan != null && fresh(ln.writeChan) && !ln.writeChan.closed && ln.writeChan.queue == []
    {
      MakeLineChans(ln);
      assert !IsListed(ln);
      Know(ln);
    }

    /** `LoadOrStore`: the user's list, made if the user is new. */
    method LoadOrStore(user: string) returns (userLines: UserLines)
      requires ListsReady()
      modifies this`connections
      ensures ListsReady() && user in connections && connections[user] == userLines
      ensures user in old(connections) ==>
        Value() == old(Value()) && userLines == old(connections[user]) && userLines.lines == old(connections[user].lines)
      ensures user !in old(connections) ==>
        fresh(userLines) && userLines.lines == [] && Value() == old(Value()).(users := old(Value()).users[user := Lines([], 0)])
    {
      if user in connections {
        return connections[user];
      }
      userLines := new UserLines();
      StoreList(user, userLines);
    }

    method StoreList(user: string, userLines: UserLines)
      requires ListsReady() && user !in connections && userLines.lines == [] && userLines.lineCount == 0
      requires forall u | u in connections :: connections[u] != userLines
      modifies this`connections
      ensures ListsReady() && connections == old(connections)[user := userLines]
      ensures Value() == old(Value()).(users := old(Value()).users[user := Lines([], 0)])
    {
      connections := connections[user := userLines];
    }

    /** The register handler, on a line that was not registered before. */
    method RegisterLine(ln: Line)
      requires Valid() && ln !in known
      modifies this, ln`closeChan, ln`writeChan, connections.Values
      ensures Valid() && known == old(known) + {ln}
      ensures Value() == Register(old(Value()), ln.ref) && connCount == old(connCount) + 1
      ensures ln.closeChan != null && fresh(ln.closeChan) && !ln.closeChan.closed && ln.closeChan.queue == []
      ensures ln.writeChan != null && fresh(ln.writeChan) && !ln.writeChan.closed && ln.writeChan.queue == []
    {
      Admit(ln);
      AddToUser(ln);
    }

    /** Its other steps: the user's list is found or made, and the line put on it and counted. */
    method AddToUser(ln: Line)
      requires ListsReady() && ln in known && !IsListed(ln)
      modifies this`connections, this`connCount, connections.Values
      ensures ListsReady() && Value() == Register(old(Value()), ln.ref)
    {
      var userLines := LoadOrStore(ln.ref.user);
      UpdateTwice(old(Value()).users, ln.ref.user, Lines([], 0), Added(Lines([], 0), ln.ref));
      AddLine(userLines, ln);
    }

    method AddLine(userLines: UserLines, ln: Line)
      requires ListsReady() && ln.ref.user in connections && connections[ln.ref.user] == userLines
      requires ln in known && ln !in userLines.lines
      modifies this`connCount, userLines
      ensures ListsReady()
      ensures Value() == Registry(old(Value()).users[ln.ref.user := Added(old(userLines.Value()), ln.ref)],
                                  old(Value()).connCount + 1)
    {
      userLines.Add(ln);
      connCount := connCount + 1;
    }

    /** Closes what is open and clears both fields; a second close would panic. */
    method CloseLineChans(ln: Line)
      requires ChansReady(known) && ln in known
      modifies ln`closeChan, ln`writeChan, ln.closeChan, ln.writeChan
      ensures ChansReady(known) && ln.closeChan == null && ln.writeChan == null
      ensures old(ln.closeChan) != null ==> old(ln.closeChan).closed
      ensures old(ln.writeChan) != null ==> old(ln.writeChan).closed
    {
      if ln.closeChan != null {
        ln.closeChan.Close();
      }
      if ln.writeChan != null {
        ln.writeChan.Close();
      }
      ln.closeChan := null;
      ln.writeChan := null;
    }

    method DropLine(userLines: UserLines, ref: LineRef)
      requires ListsReady() && ref.user in connections && connections[ref.user] == userLines
      modifies this`connCount, userLines
      ensures ListsReady()
      ensures Value() == Registry(old(Value()).users[ref.user := Removed(old(userLines.Value()), ref.id)],
                                  old(Value()).connCount - 1)
    {
      userLines.Remove(ref.id);
      connCount := connCount - 1;
    }

    method DeleteIfEmpty(user: string)
      requires ListsReady() && user in connections
      modifies this`connections
      ensures ListsReady() && connections.Keys <= old(connections.Keys)
      ensures forall u | u in connections :: connections[u] == old(connections[u])
      ensures Value() == old(Value()).(users := if old(connections[user].lineCount) == 0 then old(Value()).users - {user}
                                                else old(Value()).users)
    {
      if connections[user].lineCount == 0 {
        connections := connections - {user};
      }
    }

    /** The unregister handler. An unknown user is skipped; otherwise the line is dropped first and its channels closed after. */
    method UnregisterLine(ln: Line) returns (found: bool)
      requires Valid() && ln in known
      modifies this`connections, this`connCount, connections.Values, ln`closeChan, ln`writeChan, ln.closeChan, ln.writeChan
      ensures Valid() && Value() == Unregister(old(Value()), ln.ref)
      ensures found == (ln.ref.user in old(connections))
      ensures connCount == old(connCount) - (if found then 1 else 0) && (!found ==> connections == old(connections))
      ensures found ==> ln.closeChan == null && ln.writeChan == null
      ensures found && old(ln.closeChan) != null ==> old(ln.closeChan).closed
      ensures found && old(ln.writeChan) != null ==> old(ln.writeChan).closed
    {
      if ln.ref.user !in connections {
        return false;
      }
      var userLines := connections[ln.ref.user];
      DropLine(userLines, ln.ref);
      CloseAndDelete(userLines, ln);
      UpdateThenRemove(old(Value()).users, ln.ref.user, Removed(old(userLines.Value()), ln.ref.id));
      found := true;
    }

    /** What the handler does once the line is off its list. */
    method CloseAndDelete(userLines: UserLines, ln: Line)
      requires ListsReady() && ChansReady(known) && ln in known
      requires ln.ref.user in connections && connections[ln.ref.user] == userLines
      modifies this`connections, ln`closeChan, ln`writeChan, ln.closeChan, ln.writeChan
      ensures ListsReady() && ChansReady(known) && ln.closeChan == null && ln.writeChan == null
      ensures old(ln.closeChan) != null ==> old(ln.closeChan).closed
      ensures old(ln.writeChan) != null ==> old(ln.writeChan).closed
      ensures Value() == old(Value()).(users := if old(userLines.lineCount) == 0 then old(Value()).users - {ln.ref.user}
                                                else old(Value()).users)
    {
      CloseLineChans(ln);
      assert ListsReady() && Value() == old(Value());
      DeleteIfEmpty(ln.ref.user);
    }

    // ---------------------------------------------------------------- the sweep

    ghost predicate IsListed(ln: Line)
      reads this, connections.Values
    {
      ln.ref.user in connections && ln in connections[ln.ref.user].lines
    }

    /** What a close of the selected lines sends down the close channel of a line. */
    ghost function Command(ln: Line, which: Selector): seq<()>
      reads ln
    {
      if !which.Inert() && !ln.isClosed && which.Selects(ln.ref, ln.lastActive) then [()] else []
    }

    /** Sends a close command to the selected lines of one user, and nothing to any other line. */
    method CloseUserLines(user: string, which: Selector)
      requires Valid() && user in connections
      modifies set ln: Line | ln in known && ln.closeChan != null :: ln.closeChan`queue
      ensures Valid()
      ensures forall ln | ln in known && ln.closeChan != null ::
        ln.closeChan.queue ==
          if IsListed(ln) && ln.ref.user == user then old(ln.closeChan.queue) + Command(ln, which) else old(ln.closeChan.queue)
    {
      ListedLinesAreReady(user);
      var userLines := connections[user];
      assert forall k | 0 <= k < |userLines.lines| :: userLines.lines[k] in userLines.lines;
      userLines.CloseLines(which);
      forall ln | ln in known && ln.closeChan != null
        ensures ln.closeChan.queue ==
          if IsListed(ln) && ln.ref.user == user then old(ln.closeChan.queue) + Command(ln, which) else old(ln.closeChan.queue)
      {
        if IsListed(ln) && ln.ref.user == user {
          var k :| 0 <= k < |userLines.lines| && userLines.lines[k] == ln;
        }
      }
    }

    /** The closes of one sweep: the idle lines of every user get a close command. */
    method CloseIdleLines(idle: Selector)
      requires Valid()
      modifies set ln: Line | ln in known && ln.closeChan != null :: ln.closeChan`queue
      ensures Valid()
      ensures forall ln | ln in known && ln.closeChan != null ::
        ln.closeChan.queue ==
          if IsListed(ln) then old(ln.closeChan.queue) + Command(ln, idle) else old(ln.closeChan.queue)
    {
      var toVisit := connections.Keys;
      while toVisit != {}
        invariant ChansReady(known) && toVisit <= connections.Keys
        invariant forall ln | ln in known && ln.closeChan != null ::
          ln.closeChan.queue ==
            if IsListed(ln) && ln.ref.user !in toVisit
            then old(ln.closeChan.queue) + Command(ln, idle) else old(ln.closeChan.queue)
        decreases |toVisit|
      {
        var u :| u in toVisit;
        CloseUserLines(u, idle);
        toVisit := toVisit - {u};
      }
    }

    /** The deletions of one sweep: first collect the users whose counter is zero, then drop them. */
    method SweepEmptyUsers()
      requires ListsReady()
      modifies this`connections
      ensures ListsReady() && Value() == Sweep(old(Value()))
      ensures forall u :: u in connections <==> u in old(connections) && old(connections[u].lineCount) != 0
    {
      var toVisit, empty := connections.Keys, {};
      while toVisit != {}
        invariant toVisit <= connections.Keys
        invariant empty == set u | u in connections && u !in toVisit && connections[u].lineCount == 0
        decreases |toVisit|
      {
        var u :| u in toVisit;
        if connections[u].lineCount == 0 {
          empty := empty + {u};
        }
        toVisit := toVisit - {u};
      }
      connections := connections - empty;
    }

    /** One sweep. Closing a line changes no counter, so the two halves of the source's loop are taken one after the other. */
    method SweepUsers(now: LineRef -> int)
      requires Valid()
      modifies this`connections, set ln: Line | ln in known && ln.closeChan != null :: ln.closeChan`queue
      ensures Valid() && Value() == Sweep(old(Value()))
      ensures forall u :: u in connections <==> u in old(connections) && old(connections[u].lineCount) != 0
      ensures forall ln | ln in known && ln.closeChan != null ::
        ln.closeChan.queue == old(ln.closeChan.queue) +
          (if old(IsListed(ln)) && !ln.isClosed && connMaxIdleSeconds > 0 && now(ln.ref) - ln.lastActive > connMaxIdleSeconds
           then [()] else [])
    {
      CloseIdleLines(IdleFor(connMaxIdleSeconds, now));
      SweepEmptyUsers();
    }
  }
}

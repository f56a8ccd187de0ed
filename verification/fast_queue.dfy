/**
  The linked-list FIFO queue (pkg/collection/collection_queue.go), for one goroutine at a time.

  Taking out the last node leaves the tail pointer on it; the next insertion hangs its first node
  behind that stale tail and makes it the head.
 */
module FastQueue {
  import opened Wrappers

  class Node<T> {
    const value: T
    var next: Node?<T>

    constructor (value: T)
      ensures this.value == value && next == null
    {
      this.value, next := value, null;
    }
  }

  class Queue<T> {
    var first: Node?<T>
    var last: Node?<T>
    var size: int
    ghost var spine: seq<Node<T>> // the nodes from head to tail
    ghost var Repr: set<object>

    /** The nodes are chained from head to tail; the tail pointer of an empty queue may be stale. */
    ghost predicate Linked()
      reads this, Repr
    {
      && this in Repr
      && (forall i | 0 <= i < |spine| :: spine[i] in Repr)
      && (last != null ==> last in Repr)
      && (forall i, j | 0 <= i < j < |spine| :: spine[i] != spine[j])
      && (forall i, j | 0 <= i < |spine| - 1 && j == i + 1 :: spine[i].next == spine[j])
      && (if spine == [] then first == null else first == spine[0] && last == spine[|spine| - 1] && last.next == null)
    }

    ghost predicate Valid()
      reads this, Repr
    {
      Linked() && size == |spine|
    }

    ghost function Contents(): seq<T>
      reads this
    {
      Values(spine)
    }

    constructor ()
      ensures Valid() && fresh(Repr) && Contents() == []
    {
      first, last, size := null, null, 0;
      spine, Repr := [], {this};
    }

    /** Links one node at the end; the counter is left to the caller. */
    method Append(value: T)
      requires Linked()
      modifies Repr
      ensures Linked() && fresh(Repr - old(Repr))
      ensures size == old(size) && |spine| == |old(spine)| + 1
      ensures Contents() == old(Contents()) + [value]
    {
      var node := new Node(value);
      if last != null {
        last.next := node;
      }
      last := node;
      if first == null {
        first := node;
      }
      spine := spine + [node];
      Repr := Repr + {node};
    }

    method In(vals: seq<T>)
      requires Valid()
      modifies Repr
      ensures Valid() && fresh(Repr - old(Repr))
      ensures Contents() == old(Contents()) + vals
    {
      if |vals| == 0 {
        return;
      }
      for k := 0 to |vals|
        invariant Linked() && fresh(Repr - old(Repr))
        invariant size == old(size) && |spine| == |old(spine)| + k
        invariant Contents() == old(Contents()) + vals[..k]
      {
        Append(vals[k]);
        assert vals[..k + 1] == vals[..k] + [vals[k]];
      }
      assert vals[..|vals|] == vals;
      size := size + |vals|;
    }

    /** The oldest value, or None from an empty queue; the tail pointer is not touched. */
    method Out() returns (value: Option<T>)
      requires Valid()
      modifies this
      ensures Valid() && Repr == old(Repr) && last == old(last)
      ensures value == if old(Contents()) == [] then None else Some(old(Contents())[0])
      ensures Contents() == if old(Contents()) == [] then [] else old(Contents())[1..]
    {
      if first == null {
        return None;
      }
      var out := first;
      assert spine[0] == first && (1 < |spine| ==> first.next == spine[1]);
      assert forall i | 0 <= i < |spine| - 1 :: spine[1..][i] == spine[i + 1];
      first := out.next;
      size := size - 1;
      spine := spine[1..];
      return Some(out.value);
    }

    method Clear()
      requires Valid()
      modifies this
      ensures Valid() && Repr == old(Repr) && Contents() == []
    {
      first, last, size := null, null, 0;
      spine := [];
    }

    method Size() returns (n: int)
      requires Valid()
      ensures n == |Contents()|
    {
      n := size;
    }

    method IsEmpty() returns (empty: bool)
      requires Valid()
      ensures empty <==> Contents() == []
    {
      empty := size == 0;
    }
  }

  function Values<T>(nodes: seq<Node<T>>): (v: seq<T>)
    ensures |v| == |nodes| && forall i | 0 <= i < |nodes| :: v[i] == nodes[i].value
  {
    seq(|nodes|, i requires 0 <= i < |nodes| => nodes[i].value)
  }

  // ---------------------------------------------------------------- series of operations

  datatype Op<T> = In(vals: seq<T>) | Out | Clear

  /** A value on its way out of the queue. */
  datatype Departure<T> = Taken(value: T) | Dropped(value: T)

  function Drop<T>(contents: seq<T>): seq<Departure<T>> {
    if contents == [] then [] else [Dropped(contents[0])] + Drop(contents[1..])
  }

  /** The sequence that is in the queue after a series of operations on a mathematical sequence. */
  function Final<T>(contents: seq<T>, ops: seq<Op<T>>): seq<T>
    decreases |ops|
  {
    if ops == [] then contents
    else
      match ops[0]
      case In(vals) => Final(contents + vals, ops[1..])
      case Out => Final(if contents == [] then [] else contents[1..], ops[1..])
      case Clear => Final([], ops[1..])
  }

  function Outputs<T>(contents: seq<T>, ops: seq<Op<T>>): seq<Option<T>>
    decreases |ops|
  {
    if ops == [] then []
    else
      match ops[0]
      case In(vals) => Outputs(contents + vals, ops[1..])
      case Out =>
        if contents == [] then [None] + Outputs([], ops[1..]) else [Some(contents[0])] + Outputs(contents[1..], ops[1..])
      case Clear => Outputs([], ops[1..])
  }

  /** Runs a series of operations on a queue object. */
  method Execute<T>(queue: Queue<T>, ops: seq<Op<T>>) returns (outputs: seq<Option<T>>)
    requires queue.Valid()
    modifies queue.Repr
    ensures queue.Valid() && fresh(queue.Repr - old(queue.Repr))
    ensures queue.Contents() == Final(old(queue.Contents()), ops)
    ensures outputs == Outputs(old(queue.Contents()), ops)
  {
    outputs := [];
    for k := 0 to |ops|
      invariant queue.Valid() && fresh(queue.Repr - old(queue.Repr))
      invariant Final(queue.Contents(), ops[k..]) == Final(old(queue.Contents()), ops)
      invariant outputs + Outputs(queue.Contents(), ops[k..]) == Outputs(old(queue.Contents()), ops)
    {
      assert ops[k..][0] == ops[k] && ops[k..][1..] == ops[k + 1..];
      match ops[k]
      case In(vals) => queue.In(vals);
      case Out =>
        var v := queue.Out();
        outputs := outputs + [v];
      case Clear => queue.Clear();
    }
    assert ops[|ops|..] == [];
  }

  function Inputs<T>(ops: seq<Op<T>>): seq<T> {
    if ops == [] then [] else (if ops[0].In? then ops[0].vals else []) + Inputs(ops[1..])
  }

  /** What leaves the queue, by Out or by Clear, in order. */
  function Departures<T>(contents: seq<T>, ops: seq<Op<T>>): seq<Departure<T>>
    decreases |ops|
  {
    if ops == [] then []
    else
      match ops[0]
      case In(vals) => Departures(contents + vals, ops[1..])
      case Out => if contents == [] then Departures([], ops[1..]) else [Taken(contents[0])] + Departures(contents[1..], ops[1..])
      case Clear => Drop(contents) + Departures([], ops[1..])
  }

  function Departed<T>(departures: seq<Departure<T>>): (v: seq<T>)
    ensures |v| == |departures| && forall i | 0 <= i < |v| :: v[i] == departures[i].value
  {
    seq(|departures|, i requires 0 <= i < |departures| => departures[i].value)
  }

  /** The values of the successful calls of Out. */
  function TakenValues<T>(departures: seq<Departure<T>>): seq<T> {
    if departures == [] then []
    else (if departures[0].Taken? then [departures[0].value] else []) + TakenValues(departures[1..])
  }

  function Found<T>(outputs: seq<Option<T>>): seq<T> {
    if outputs == [] then [] else (if outputs[0].Some? then [outputs[0].value] else []) + Found(outputs[1..])
  }

  lemma {:induction false} DropAll<T>(contents: seq<T>)
    ensures Departed(Drop(contents)) == contents && TakenValues(Drop(contents)) == []
  {
    if contents != [] {
      DropAll(contents[1..]);
      assert contents == [contents[0]] + contents[1..];
      assert Drop(contents)[1..] == Drop(contents[1..]);
    }
  }

  lemma {:induction false} TakenAppend<T>(a: seq<Departure<T>>, b: seq<Departure<T>>)
    ensures TakenValues(a + b) == TakenValues(a) + TakenValues(b)
    ensures Departed(a + b) == Departed(a) + Departed(b)
  {
    if a == [] {
      assert a + b == b;
    } else {
      assert (a + b)[1..] == a[1..] + b;
      TakenAppend(a[1..], b);
    }
  }

  lemma PrependFirst<T>(x: T, rest: seq<T>, departures: seq<Departure<T>>, final: seq<T>, inputs: seq<T>)
    requires Departed(departures) + final == rest + inputs
    ensures Departed([Taken(x)] + departures) + final == [x] + rest + inputs
    ensures TakenValues([Taken(x)] + departures) == [x] + TakenValues(departures)
  {
    TakenAppend([Taken(x)], departures);
    assert Departed([Taken(x)]) == [x];
    assert [x] + Departed(departures) + final == [x] + (Departed(departures) + final);
    assert ([Taken(x)] + departures)[1..] == departures;
  }

  lemma FoundFirst<T>(o: Option<T>, outputs: seq<Option<T>>)
    ensures Found([o] + outputs) == (if o.Some? then [o.value] else []) + Found(outputs)
  {
    assert ([o] + outputs)[1..] == outputs;
  }

  lemma DropFirst<T>(contents: seq<T>, departures: seq<Departure<T>>, final: seq<T>, inputs: seq<T>)
    requires Departed(departures) + final == inputs
    ensures Departed(Drop(contents) + departures) + final == contents + inputs
    ensures TakenValues(Drop(contents) + departures) == TakenValues(departures)
  {
    DropAll(contents);
    TakenAppend(Drop(contents), departures);
    assert contents + Departed(departures) + final == contents + (Departed(departures) + final);
  }

  /**
    First in, first out: what leaves, followed by what remains, is what was there, followed by
    everything that went in; and the calls of Out return what left, but for what Clear dropped.
   */
  lemma {:induction false} FirstInFirstOut<T>(contents: seq<T>, ops: seq<Op<T>>)
    ensures Departed(Departures(contents, ops)) + Final(contents, ops) == contents + Inputs(ops)
    ensures Found(Outputs(contents, ops)) == TakenValues(Departures(contents, ops))
    decreases |ops|
  {
    if ops != [] {
      var later := ops[1..];
      match ops[0]
      case In(vals) =>
        FirstInFirstOut(contents + vals, later);
        assert contents + vals + Inputs(later) == contents + (vals + Inputs(later));
      case Out =>
        if contents == [] {
          FirstInFirstOut([], later);
          FoundFirst(None, Outputs([], later));
        } else {
          var x, rest := contents[0], contents[1..];
          FirstInFirstOut(rest, later);
          assert contents == [x] + rest;
          PrependFirst(x, rest, Departures(rest, later), Final(rest, later), Inputs(later));
          FoundFirst(Some(x), Outputs(rest, later));
        }
      case Clear =>
        FirstInFirstOut([], later);
        DropFirst(contents, Departures([], later), Final([], later), Inputs(later));
    }
  }
}

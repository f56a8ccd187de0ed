/**
  The same access on heap objects: `SetValue` changes maps and slices in place, and `GetValue`
  follows references (pkg/core/mapx.go). A tree is unshared: no container is reached twice.
 */
module MapX {
  import opened MapXValues

  datatype Ref = NilRef | ScalarRef(text: string) | NodeRef(node: Node)

  /** A map[string]any or a []any. */
  class Node {
    const isSlice: bool
    var entries: map<string, Ref>
    var elems: seq<Ref>
    ghost var value: Value
    ghost var Repr: set<Node>

    constructor (isSlice: bool)
      ensures Valid() && fresh(Repr) && Repr == {this}
      ensures this.isSlice == isSlice && value == if isSlice then Slice([]) else Map(map[])
    {
      this.isSlice, entries, elems := isSlice, map[], [];
      value, Repr := if isSlice then Slice([]) else Map(map[]), {this};
    }

    ghost predicate Valid()
      reads this, Repr
      ensures Valid() ==> this in Repr
      decreases Repr
    {
      && this in Repr
      && (if isSlice then
            && value.Slice? && entries == map[] && |value.elems| == |elems|
            && (forall i | 0 <= i < |elems| :: KidOk(elems[i], value.elems[i]))
            && (forall i, j | 0 <= i < j < |elems| :: KidRepr(elems[i]) !! KidRepr(elems[j]))
          else
            && value.Map? && elems == [] && value.entries.Keys == entries.Keys
            && (forall k | k in entries :: KidOk(entries[k], value.entries[k]))
            && (forall j, k | j in entries && k in entries && j != k :: KidRepr(entries[j]) !! KidRepr(entries[k])))
    }

    ghost predicate KidOk(r: Ref, v: Value)
      reads this, Repr
      requires this in Repr
      decreases Repr, 0
    {
      match r
      case NilRef => v == Nil
      case ScalarRef(text) => v == Scalar(text)
      case NodeRef(n) => n in Repr && n.Repr <= Repr - {this} && n.Valid() && n.value == v
    }
  }

  ghost function KidRepr(r: Ref): set<Node>
    reads if r.NodeRef? then {r.node} else {}
  {
    if r.NodeRef? then r.node.Repr else {}
  }

  /** A reference to a whole tree of its own. */
  ghost predicate TreeOk(r: Ref, v: Value)
    reads if r.NodeRef? then {r.node} + r.node.Repr else {}
  {
    match r
    case NilRef => v == Nil
    case ScalarRef(text) => v == Scalar(text)
    case NodeRef(n) => n.Valid() && n.value == v
  }

  method GetValue(root: Node?, path: string) returns (found: bool, r: Ref)
    requires root != null ==> root.Valid() && !root.isSlice
    ensures found <==> root != null && Get(root.value, Split(path)).Some?
    ensures found ==> TreeOk(r, Get(root.value, Split(path)).value)
  {
    if root == null {
      return false, NilRef;
    }
    if |root.entries| == 0 {
      assert root.value.entries.Keys == {};
      return false, NilRef;
    }
    var keys := Split(path);
    var current: Ref := NodeRef(root);
    ghost var v := root.value;
    for i := 0 to |keys|
      invariant TreeOk(current, v)
      invariant Get(v, keys[i..]) == Get(root.value, keys)
    {
      assert keys[i..][1..] == keys[i + 1..];
      var idx := Atoi(keys[i]);
      if idx.Some? {
        if !(current.NodeRef? && current.node.isSlice) {
          return false, NilRef;
        }
        var n := current.node;
        if idx.value < 0 || idx.value >= |n.elems| {
          return false, NilRef;
        }
        assert n.KidOk(n.elems[idx.value], n.value.elems[idx.value]);
        v := v.elems[idx.value];
        current := n.elems[idx.value];
      } else {
        if !(current.NodeRef? && !current.node.isSlice) {
          return false, NilRef;
        }
        var n := current.node;
        if keys[i] !in n.entries {
          return false, NilRef;
        }
        assert n.KidOk(n.entries[keys[i]], n.value.entries[keys[i]]);
        v := v.entries[keys[i]];
        current := n.entries[keys[i]];
      }
    }
    assert keys[|keys|..] == [];
    return true, current;
  }

  /** Stores a reference under a key of a map node, in place. */
  method PutEntry(n: Node, key: string, x: Ref, ghost xv: Value)
    requires n.Valid() && !n.isSlice && TreeOk(x, xv) && KidRepr(x) !! n.Repr
    modifies n
    ensures n.Valid() && n.value == Map(old(n.value).entries[key := xv]) && n.Repr == old(n.Repr) + KidRepr(x)
    ensures n.entries == old(n.entries)[key := x]
  {
    n.entries := n.entries[key := x];
    n.value := Map(n.value.entries[key := xv]);
    n.Repr := n.Repr + KidRepr(x);
    forall k | k in n.entries ensures n.KidOk(n.entries[k], n.value.entries[k]) {
      if k != key {
        assert old(n.KidOk(n.entries[k], n.value.entries[k]));
      }
    }
    forall j, k | j in n.entries && k in n.entries && j != k ensures KidRepr(n.entries[j]) !! KidRepr(n.entries[k]) {
      assert j != key ==> old(n.KidOk(n.entries[j], n.value.entries[j]));
      assert k != key ==> old(n.KidOk(n.entries[k], n.value.entries[k]));
    }
  }

  method PutElem(n: Node, i: nat, x: Ref, ghost xv: Value)
    requires n.Valid() && n.isSlice && i < |n.elems| && TreeOk(x, xv) && KidRepr(x) !! n.Repr
    modifies n
    ensures n.Valid() && n.value == Slice(old(n.value).elems[i := xv]) && n.Repr == old(n.Repr) + KidRepr(x)
    ensures n.elems == old(n.elems)[i := x]
  {
    n.elems := n.elems[i := x];
    n.value := Slice(n.value.elems[i := xv]);
    n.Repr := n.Repr + KidRepr(x);
  }

  /** A map node whose kid under `key` has just changed: all that is missing is the node's own account of it. */
  ghost predicate StaleEntry(n: Node, key: string)
    reads n, n.Repr, if key in n.entries && n.entries[key].NodeRef? then {n.entries[key].node} + n.entries[key].node.Repr else {}
  {
    && n in n.Repr && !n.isSlice && n.elems == [] && n.value.Map? && n.value.entries.Keys == n.entries.Keys
    && key in n.entries && n.entries[key].NodeRef?
    && n.entries[key].node.Valid() && n !in n.entries[key].node.Repr
    && (forall k | k in n.entries && k != key ::
          n.KidOk(n.entries[k], n.value.entries[k]))
    && (forall j, k | j in n.entries && k in n.entries && j != k :: KidRepr(n.entries[j]) !! KidRepr(n.entries[k]))
  }

  ghost method AdoptEntry(n: Node, key: string)
    requires StaleEntry(n, key)
    modifies n`value, n`Repr
    ensures n.Valid() && n.value == Map(old(n.value).entries[key := n.entries[key].node.value])
    ensures n.Repr == old(n.Repr) + n.entries[key].node.Repr
  {
    var c := n.entries[key].node;
    n.value := Map(n.value.entries[key := c.value]);
    n.Repr := n.Repr + c.Repr;
    forall k | k in n.entries ensures n.KidOk(n.entries[k], n.value.entries[k]) {
      if k != key {
        assert old(n.KidOk(n.entries[k], n.value.entries[k]));
        assert n.value.entries[k] == old(n.value.entries[k]);
      }
    }
  }

  /** `SetValue` from one container on, in place; the source walks down with a loop where this recurses. */
  method SetBelow(n: Node, keys: seq<string>, x: Ref, ghost xv: Value) returns (status: Status)
    requires keys != [] && n.Valid() && TreeOk(x, xv) && KidRepr(x) !! n.Repr
    modifies n.Repr
    ensures n.Valid() && (n.value, status) == Set(old(n.value), keys, xv)
    ensures fresh(n.Repr - old(n.Repr) - KidRepr(x))
    decreases |keys|, 1
  {
    if !n.isSlice {
      status := SetInMap(n, keys, x, xv);
    } else {
      status := SetInSlice(n, keys, x, xv);
    }
  }

  /** A missing entry on the way is made: a slice or a map, as the next key asks for. */
  method MakeEntry(n: Node, keys: seq<string>)
    requires |keys| > 1 && n.Valid() && !n.isSlice
    modifies n
    ensures n.Valid() && keys[0] in n.entries && fresh(n.Repr - old(n.Repr))
    ensures n.value == Map(old(n.value).entries[keys[0] := ChildOfMap(old(n.value).entries, keys)])
  {
    if keys[0] !in n.entries {
      var made := new Node(Atoi(keys[1]).Some?);
      PutEntry(n, keys[0], NodeRef(made), NewContainer(keys[1]));
    } else {
      assert n.value.entries[keys[0] := n.value.entries[keys[0]]] == n.value.entries;
    }
  }

  /** Writes below the container that a map node holds under a key. */
  method DescendEntry(n: Node, key: string, rest: seq<string>, x: Ref, ghost xv: Value) returns (status: Status)
    requires rest != [] && n.Valid() && !n.isSlice && TreeOk(x, xv) && KidRepr(x) !! n.Repr
    requires key in n.entries && n.entries[key].NodeRef?
    modifies n.Repr
    ensures n.Valid() && fresh(n.Repr - old(n.Repr) - KidRepr(x))
    ensures var (child, s) := Set(old(n.value).entries[key], rest, xv);
      status == s && n.value == Map(old(n.value).entries[key := child])
    decreases |rest|, 2
  {
    assert n.KidOk(n.entries[key], n.value.entries[key]);
    label before:
    var c := n.entries[key].node;
    status := SetBelow(c, rest, x, xv);
    forall k | k in n.entries && k != key
      ensures n.KidOk(n.entries[k], n.value.entries[k]) && KidRepr(n.entries[k]) !! c.Repr
    {
      assert old@before(n.KidOk(n.entries[k], n.value.entries[k]));
    }
    AdoptEntry(n, key);
  }

  method SetInMap(n: Node, keys: seq<string>, x: Ref, ghost xv: Value) returns (status: Status)
    requires keys != [] && n.Valid() && !n.isSlice && TreeOk(x, xv) && KidRepr(x) !! n.Repr
    modifies n.Repr
    ensures n.Valid() && (n.value, status) == Set(old(n.value), keys, xv)
    ensures fresh(n.Repr - old(n.Repr) - KidRepr(x))
    decreases |keys|, 0
  {
    var key := keys[0];
    if |keys| == 1 {
      PutEntry(n, key, x, xv);
      return Ok;
    }
    ghost var entries := n.value.entries;
    MakeEntry(n, keys);
    assert n.KidOk(n.entries[key], n.value.entries[key]);
    if n.entries[key].NodeRef? {
      ghost var child := n.value.entries[key];
      status := DescendEntry(n, key, keys[1..], x, xv);
      OverwriteEntry(entries, key, child, Set(child, keys[1..], xv).0);
    } else {
      status := Ok;
    }
  }

  /** The same for a slice node and an index. */
  ghost predicate StaleElem(n: Node, i: nat)
    reads n, n.Repr, if i < |n.elems| && n.elems[i].NodeRef? then {n.elems[i].node} + n.elems[i].node.Repr else {}
  {
    && n in n.Repr && n.isSlice && n.entries == map[] && n.value.Slice? && |n.value.elems| == |n.elems|
    && i < |n.elems| && n.elems[i].NodeRef?
    && n.elems[i].node.Valid() && n !in n.elems[i].node.Repr
    && (forall k | 0 <= k < |n.elems| && k != i ::
          n.KidOk(n.elems[k], n.value.elems[k]) && KidRepr(n.elems[k]) !! n.elems[i].node.Repr)
    && (forall j, k | 0 <= j < k < |n.elems| && j != i && k != i :: KidRepr(n.elems[j]) !! KidRepr(n.elems[k]))
  }

  ghost method AdoptElem(n: Node, i: nat)
    requires StaleElem(n, i)
    modifies n`value, n`Repr
    ensures n.Valid() && n.value == Slice(old(n.value).elems[i := n.elems[i].node.value])
    ensures n.Repr == old(n.Repr) + n.elems[i].node.Repr
  {
    var c := n.elems[i].node;
    n.value := Slice(n.value.elems[i := c.value]);
    n.Repr := n.Repr + c.Repr;
    forall k | 0 <= k < |n.elems| ensures n.KidOk(n.elems[k], n.value.elems[k]) {
      if k != i {
        assert old(n.KidOk(n.elems[k], n.value.elems[k]));
      }
    }
  }

  /** A nil element on the way is replaced by a new container. */
  method MakeElem(n: Node, i: nat, keys: seq<string>)
    requires |keys| > 1 && n.Valid() && n.isSlice && i < |n.elems|
    modifies n
    ensures n.Valid() && |n.elems| == old(|n.elems|) && fresh(n.Repr - old(n.Repr))
    ensures n.value == Slice(old(n.value).elems[i := ChildOfSlice(old(n.value).elems, i, keys)])
  {
    assert n.KidOk(n.elems[i], n.value.elems[i]);
    if n.elems[i].NilRef? {
      var made := new Node(Atoi(keys[1]).Some?);
      PutElem(n, i, NodeRef(made), NewContainer(keys[1]));
    } else {
      assert n.elems[i].NodeRef? ==> n.elems[i].node.Valid();
      assert n.value.elems[i := n.value.elems[i]] == n.value.elems;
    }
  }

  method SetInSlice(n: Node, keys: seq<string>, x: Ref, ghost xv: Value) returns (status: Status)
    requires keys != [] && n.Valid() && n.isSlice && TreeOk(x, xv) && KidRepr(x) !! n.Repr
    modifies n.Repr
    ensures n.Valid() && (n.value, status) == Set(old(n.value), keys, xv)
    ensures fresh(n.Repr - old(n.Repr) - KidRepr(x))
    decreases |keys|, 0
  {
    var idx := Atoi(keys[0]);
    if idx.None? {
      return NotANumber;
    }
    if idx.value < 0 || idx.value >= |n.elems| {
      return OutOfRange;
    }
    var i := idx.value;
    if |keys| == 1 {
      PutElem(n, i, x, xv);
      return Ok;
    }
    ghost var elems, child := n.value.elems, ChildOfSlice(n.value.elems, i, keys);
    MakeElem(n, i, keys);
    assert n.KidOk(n.elems[i], n.value.elems[i]);
    if n.elems[i].NodeRef? {
      status := DescendElem(n, i, keys[1..], x, xv);
      OverwriteElem(elems, i, child, Set(child, keys[1..], xv).0);
    } else {
      status := Ok;
    }
  }

  /** Writes below the container that a slice node holds at an index. */
  method DescendElem(n: Node, i: nat, rest: seq<string>, x: Ref, ghost xv: Value) returns (status: Status)
    requires rest != [] && n.Valid() && n.isSlice && TreeOk(x, xv) && KidRepr(x) !! n.Repr
    requires i < |n.elems| && n.elems[i].NodeRef?
    modifies n.Repr
    ensures n.Valid() && fresh(n.Repr - old(n.Repr) - KidRepr(x))
    ensures var (child, s) := Set(old(n.value).elems[i], rest, xv);
      status == s && n.value == Slice(old(n.value).elems[i := child])
    decreases |rest|, 2
  {
    assert n.KidOk(n.elems[i], n.value.elems[i]);
    label before:
    var c := n.elems[i].node;
    status := SetBelow(c, rest, x, xv);
    forall k | 0 <= k < |n.elems| && k != i
      ensures n.KidOk(n.elems[k], n.value.elems[k]) && KidRepr(n.elems[k]) !! c.Repr
    {
      assert old@before(n.KidOk(n.elems[k], n.value.elems[k]));
    }
    AdoptElem(n, i);
  }

  /** `SetValue`: fails on a nil map, and otherwise writes below the root. */
  method SetValue(root: Node?, path: string, x: Ref, ghost xv: Value) returns (isNil: bool, status: Status)
    requires root != null ==> root.Valid() && !root.isSlice && TreeOk(x, xv) && KidRepr(x) !! root.Repr
    modifies if root != null then root.Repr else {}
    ensures isNil <==> root == null
    ensures root != null ==>
      && root.Valid() && (root.value, status) == Set(old(root.value), Split(path), xv)
      && fresh(root.Repr - old(root.Repr) - KidRepr(x))
  {
    if root == null {
      return true, Ok;
    }
    isNil := false;
    status := SetBelow(root, Split(path), x, xv);
  }
}

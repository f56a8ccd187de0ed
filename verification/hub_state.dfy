/**
  The connection registry as values: what a user's line list and counter hold, and what each
  handler of the hub does to the registry when it runs without interruption.
  (pkg/hub/user_lines.go, pkg/hub/hub.go)
 */
module HubState {
  import opened Wrappers

  /** The identity of a connection. Two connections may carry the same id; `serial` tells them apart. */
  datatype LineRef = LineRef(serial: nat, id: string, user: string, platform: int)

  datatype Lines = Lines(refs: seq<LineRef>, count: int)

  /** The list that `remove` builds: every line with the id is dropped, the others keep their order. */
  function Without(refs: seq<LineRef>, id: string): seq<LineRef> {
    if refs == [] then []
    else (if refs[0].id != id then [refs[0]] else []) + Without(refs[1..], id)
  }

  lemma {:induction false} WithoutDropsExactlyTheId(refs: seq<LineRef>, id: string)
    ensures forall l :: l in Without(refs, id) <==> l in refs && l.id != id
    ensures |Without(refs, id)| <= |refs|
    ensures (forall l | l in refs :: l.id != id) ==> Without(refs, id) == refs
  {
    if refs != [] {
      WithoutDropsExactlyTheId(refs[1..], id);
      assert refs == [refs[0]] + refs[1..];
    }
  }

  lemma {:induction false} WithoutKeepsNoRepeats(refs: seq<LineRef>, id: string)
    requires NoRepeats(refs)
    ensures NoRepeats(Without(refs, id))
  {
    if refs != [] {
      WithoutKeepsNoRepeats(refs[1..], id);
      WithoutDropsExactlyTheId(refs[1..], id);
      var w := Without(refs[1..], id);
      assert refs[0] !in refs[1..];
      assert refs[0] !in w;
    }
  }

  lemma {:induction false} WithoutAppend(a: seq<LineRef>, l: LineRef, id: string)
    ensures Without(a + [l], id) == Without(a, id) + (if l.id != id then [l] else [])
  {
    if a == [] {
      assert a + [l] == [l];
      assert [l][1..] == [];
    } else {
      assert (a + [l])[1..] == a[1..] + [l];
      WithoutAppend(a[1..], l, id);
    }
  }

  function Added(u: Lines, l: LineRef): Lines {
    Lines(u.refs + [l], u.count + 1)
  }

  function Removed(u: Lines, id: string): Lines {
    Lines(Without(u.refs, id), u.count - 1)
  }

  // ---------------------------------------------------------------- whole handlers

  datatype Registry = Registry(users: map<string, Lines>, connCount: int)

  function Register(r: Registry, l: LineRef): Registry {
    var u := if l.user in r.users then r.users[l.user] else Lines([], 0);
    Registry(r.users[l.user := Added(u, l)], r.connCount + 1)
  }

  function Unregister(r: Registry, l: LineRef): Registry {
    if l.user !in r.users then r
    else
      var u := Removed(r.users[l.user], l.id);
      Registry(if u.count == 0 then r.users - {l.user} else r.users[l.user := u], r.connCount - 1)
  }

  function Sweep(r: Registry): Registry {
    r.(users := map u | u in r.users && r.users[u].count != 0 :: r.users[u])
  }

  // ---------------------------------------------------------------- unregistering a line that is not listed

  lemma {:induction false} WithoutDropsOne(refs: seq<LineRef>, id: string, i: nat)
    requires forall j, k | 0 <= j < k < |refs| :: refs[j].id != refs[k].id
    requires i < |refs| && refs[i].id == id
    ensures |Without(refs, id)| == |refs| - 1
  {
    if i == 0 {
      WithoutDropsExactlyTheId(refs[1..], id);
    } else {
      assert refs[0].id != refs[i].id;
      WithoutDropsOne(refs[1..], id, i - 1);
    }
  }

  /**
    Why a line may be unregistered only after it was registered, and once. The handler keeps a
    user's counter equal to the length of the list if and only if a line with the id is listed;
    else it counts off a line that stays.
   */
  lemma UnregisterCountsExactly(r: Registry, l: LineRef)
    requires l.user in r.users && r.users[l.user].count == |r.users[l.user].refs|
    requires var refs := r.users[l.user].refs; forall i, j | 0 <= i < j < |refs| :: refs[i].id != refs[j].id
    ensures var u := r.users[l.user]; var r' := Unregister(r, l);
      && ((exists m :: m in u.refs && m.id == l.id) <==> Removed(u, l.id).count == |Removed(u, l.id).refs|)
      && r'.connCount == r.connCount - 1
      && (u.count == 1 && u.refs[0].id != l.id ==> l.user !in r'.users)
  {
    var u := r.users[l.user];
    WithoutDropsExactlyTheId(u.refs, l.id);
    if m :| m in u.refs && m.id == l.id {
      var i :| 0 <= i < |u.refs| && u.refs[i] == m;
      WithoutDropsOne(u.refs, l.id, i);
    }
  }
}

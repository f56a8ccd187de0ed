/**
  Dotted-path access to nested maps and slices (pkg/core/mapx.go), on values: what a read
  returns and what a write makes of a tree in which no container is shared.
 */
module MapXValues {
  import opened Wrappers
  import opened Bits

  /** A dynamic value; every type other than map[string]any, []any and nil is a scalar here. */
  datatype Value =
    | Nil
    | Scalar(text: string)
    | Map(entries: map<string, Value>)
    | Slice(elems: seq<Value>)

  // ---------------------------------------------------------------- paths

  predicate IsDigit(c: char) {
    '0' <= c <= '9'
  }

  function Digits(s: string): Option<nat> {
    if s == [] then Some(0)
    else if !IsDigit(s[|s| - 1]) then None
    else
      match Digits(s[..|s| - 1])
      case None => None
      case Some(n) => Some(10 * n + (s[|s| - 1] - '0') as nat)
  }

  /** `strconv.Atoi`: an optional sign and decimal digits, within 64 bits. */
  function Atoi(s: string): Option<int> {
    var signed := s != [] && (s[0] == '+' || s[0] == '-');
    var digits := if signed then s[1..] else s;
    if digits == [] then None
    else
      match Digits(digits)
      case None => None
      case Some(n) =>
        var v: int := if s[0] == '-' then 0 - n else n;
        if IsInt64(v) then Some(v) else None
  }

  /** The decimal digits of a number. */
  function Decimal(n: nat): string {
    if n < 10 then [('0' as int + n) as char] else Decimal(n / 10) + [('0' as int + n % 10) as char]
  }

  lemma {:induction false} DigitsOfDecimal(n: nat)
    ensures Decimal(n) != [] && IsDigit(Decimal(n)[0]) && Digits(Decimal(n)) == Some(n)
  {
    if n >= 10 {
      DigitsOfDecimal(n / 10);
      var front, c := Decimal(n / 10), ('0' as int + n % 10) as char;
      assert (front + [c])[..|front|] == front && (front + [c])[0] == front[0];
    } else {
      assert Decimal(n)[..0] == [];
    }
  }

  lemma {:induction false} DigitsExactly(s: string)
    ensures Digits(s).Some? <==> forall k | 0 <= k < |s| :: '0' <= s[k] <= '9'
    ensures Digits(['0'] + s) == Digits(s)
    decreases |s|
  {
    if s == [] {
      assert ['0'][..0] == [];
    } else {
      var front := s[..|s| - 1];
      DigitsExactly(front);
      assert (['0'] + s)[..|s|] == ['0'] + front;
      assert forall k | 0 <= k < |front| :: front[k] == s[k];
    }
  }

  /** A number is read from its decimal digits, with a minus sign or an optional plus sign, within 64 bits. */
  lemma AtoiReadsDecimal(n: nat)
    ensures Atoi(Decimal(n)) == Atoi("+" + Decimal(n)) == (if n < 0x8000_0000_0000_0000 then Some(n) else None)
    ensures var m: int := 0 - n; Atoi("-" + Decimal(n)) == if n <= 0x8000_0000_0000_0000 then Some(m) else None
    ensures Atoi("0" + Decimal(n)) == Atoi(Decimal(n))
  {
    DigitsOfDecimal(n);
    AtoiOfDigits(Decimal(n), n);
    DigitsExactly(Decimal(n));
    assert "0" + Decimal(n) == ['0'] + Decimal(n);
    AtoiOfDigits("0" + Decimal(n), n);
  }

  lemma AtoiOfDigits(d: string, n: nat)
    requires d != [] && IsDigit(d[0]) && Digits(d) == Some(n)
    ensures Atoi(d) == Atoi("+" + d) == (if n < 0x8000_0000_0000_0000 then Some(n) else None)
    ensures var m: int := 0 - n; Atoi("-" + d) == if n <= 0x8000_0000_0000_0000 then Some(m) else None
  {
    assert ("+" + d)[1..] == d && ("-" + d)[1..] == d;
  }

  /** Nothing else is a number: no text without a digit, and none with anything but digits behind the sign. */
  lemma AtoiRejects(s: string)
    ensures Atoi(s).Some? ==>
      var digits := if s != [] && (s[0] == '+' || s[0] == '-') then s[1..] else s;
      digits != [] && forall k | 0 <= k < |digits| :: '0' <= digits[k] <= '9'
  {
    if s != [] {
      DigitsExactly(s[1..]);
      DigitsExactly(s);
    }
  }

  /** `strings.Split(path, ".")`. */
  function Split(path: string): (keys: seq<string>)
    ensures keys != []
  {
    if path == [] then [[]]
    else
      var rest := Split(path[1..]);
      if path[0] == '.' then [[]] + rest else [[path[0]] + rest[0]] + rest[1..]
  }

  function Join(keys: seq<string>): string
    requires keys != []
  {
    if |keys| == 1 then keys[0] else keys[0] + "." + Join(keys[1..])
  }

  lemma JoinFirst(c: char, keys: seq<string>)
    requires keys != []
    ensures Join([[c] + keys[0]] + keys[1..]) == [c] + Join(keys)
  {
    var longer := [[c] + keys[0]] + keys[1..];
    assert longer[1..] == keys[1..];
    if |keys| > 1 {
      assert Join(longer) == ([c] + keys[0]) + "." + Join(keys[1..]);
    }
  }

  lemma JoinEmpty(keys: seq<string>)
    requires keys != []
    ensures Join([[]] + keys) == "." + Join(keys)
  {
    assert ([[]] + keys)[1..] == keys;
  }

  /** Splitting loses nothing, and no key holds a dot. */
  lemma {:induction false} SplitKeepsPath(path: string)
    ensures Join(Split(path)) == path
    ensures forall k | k in Split(path) :: '.' !in k
  {
    if path != [] {
      SplitKeepsPath(path[1..]);
      var rest := Split(path[1..]);
      assert path == [path[0]] + path[1..];
      if path[0] == '.' {
        JoinEmpty(rest);
      } else {
        JoinFirst(path[0], rest);
        assert rest[0] in rest;
      }
    }
  }

  // ---------------------------------------------------------------- reading and writing

  function Get(v: Value, keys: seq<string>): Option<Value> {
    if keys == [] then Some(v)
    else
      match Atoi(keys[0])
      case Some(i) => if v.Slice? && 0 <= i < |v.elems| then Get(v.elems[i], keys[1..]) else None
      case None => if v.Map? && keys[0] in v.entries then Get(v.entries[keys[0]], keys[1..]) else None
  }

  datatype Status = Ok | NotANumber | OutOfRange

  /** The container that is made where a path goes on with `next`. */
  function NewContainer(next: string): Value {
    if Atoi(next).Some? then Slice([]) else Map(map[])
  }

  /** The value below a key of a map, made if it is missing. */
  function ChildOfMap(entries: map<string, Value>, keys: seq<string>): Value
    requires |keys| > 1
  {
    if keys[0] in entries then entries[keys[0]] else NewContainer(keys[1])
  }

  /** The element at an index, replaced by a new container if it is nil. */
  function ChildOfSlice(elems: seq<Value>, i: nat, keys: seq<string>): Value
    requires |keys| > 1 && i < |elems|
  {
    if elems[i] == Nil then NewContainer(keys[1]) else elems[i]
  }

  /** What `SetValue` makes of the container it stands on, and the error it returns. */
  function Set(v: Value, keys: seq<string>, x: Value): (Value, Status)
    requires keys != []
    decreases |keys|
  {
    match v
    case Map(entries) =>
      if |keys| == 1 then (Map(entries[keys[0] := x]), Ok)
      else
        var (child, status) := Set(ChildOfMap(entries, keys), keys[1..], x);
        (Map(entries[keys[0] := child]), status)
    case Slice(elems) =>
      (match Atoi(keys[0])
       case None => (v, NotANumber)
       case Some(i) =>
         if i < 0 || i >= |elems| then (v, OutOfRange)
         else if |keys| == 1 then (Slice(elems[i := x]), Ok)
         else
           var (child, status) := Set(ChildOfSlice(elems, i, keys), keys[1..], x);
           (Slice(elems[i := child]), status))
    case _ => (v, Ok) // a scalar or nil blocks the rest of the path without an error
  }

  // ---------------------------------------------------------------- one key at a time

  /** A name reads an entry of a map, a number an element of a slice, and nothing else reads anything. */
  lemma GetOneExactly(v: Value, key: string)
    ensures Get(v, []) == Some(v)
    ensures Get(v, [key]) ==
            if v.Map? && Atoi(key) == None && key in v.entries then Some(v.entries[key])
            else if v.Slice? && Atoi(key).Some? && 0 <= Atoi(key).value < |v.elems| then Some(v.elems[Atoi(key).value])
            else None
  {
    assert [key][1..] == [];
  }

  /** A longer path reads on where the shorter one ends. */
  lemma {:induction false} GetGoesOn(v: Value, p: seq<string>, q: seq<string>)
    ensures Get(v, p + q) == match Get(v, p) case None => None case Some(w) => Get(w, q)
    decreases |p|
  {
    if p == [] {
      assert p + q == q;
    } else {
      assert (p + q)[1..] == p[1..] + q;
      match Atoi(p[0])
      case Some(i) =>
        if v.Slice? && 0 <= i < |v.elems| {
          GetGoesOn(v.elems[i], p[1..], q);
        }
      case None =>
        if v.Map? && p[0] in v.entries {
          GetGoesOn(v.entries[p[0]], p[1..], q);
        }
    }
  }

  /** A write with one key: a map takes it under any key, a slice at one of its indices, and anything else not at all. */
  lemma SetOneExactly(v: Value, key: string, x: Value)
    ensures Set(v, [key], x) ==
            match v
            case Map(entries) => (Map(entries[key := x]), Ok)
            case Slice(elems) =>
              if Atoi(key).None? then (v, NotANumber)
              else if Atoi(key).value < 0 || Atoi(key).value >= |elems| then (v, OutOfRange)
              else (Slice(elems[Atoi(key).value := x]), Ok)
            case _ => (v, Ok)
  {
  }

  /** A write with more keys goes through what is there, and changes only that. */
  lemma SetGoesThrough(v: Value, key: string, rest: seq<string>, x: Value)
    requires rest != []
    ensures v.Map? && key in v.entries ==>
      var (kid, status) := Set(v.entries[key], rest, x);
      Set(v, [key] + rest, x) == (Map(v.entries[key := kid]), status)
    ensures v.Slice? && Atoi(key).Some? && 0 <= Atoi(key).value < |v.elems| && v.elems[Atoi(key).value] != Nil ==>
      var (kid, status) := Set(v.elems[Atoi(key).value], rest, x);
      Set(v, [key] + rest, x) == (Slice(v.elems[Atoi(key).value := kid]), status)
    ensures !v.Map? && !v.Slice? ==> Set(v, [key] + rest, x) == (v, Ok)
  {
    assert ([key] + rest)[1..] == rest;
  }

  /** Where a map has no entry, or a slice holds nil, a container is made first: a slice before a number, a map before a name. */
  lemma SetMakesContainer(v: Value, key: string, rest: seq<string>, x: Value)
    requires rest != []
    ensures var made := if Atoi(rest[0]).Some? then Slice([]) else Map(map[]);
      && (v.Map? && key !in v.entries ==>
            Set(v, [key] + rest, x) == Set(Map(v.entries[key := made]), [key] + rest, x))
      && (v.Slice? && Atoi(key).Some? && 0 <= Atoi(key).value < |v.elems| && v.elems[Atoi(key).value] == Nil ==>
            Set(v, [key] + rest, x) == Set(Slice(v.elems[Atoi(key).value := made]), [key] + rest, x))
  {
    assert ([key] + rest)[1..] == rest;
    var made := if Atoi(rest[0]).Some? then Slice([]) else Map(map[]);
    var kid := Set(made, rest, x).0;
    if v.Map? && key !in v.entries {
      OverwriteEntry(v.entries, key, made, kid);
    } else if v.Slice? && Atoi(key).Some? && 0 <= Atoi(key).value < |v.elems| {
      OverwriteElem(v.elems, Atoi(key).value, made, kid);
    }
  }

  // ---------------------------------------------------------------- the containers that a write makes

  /** Every proper prefix of the path that reads as something reads as a map. */
  ghost predicate MapsOnTheWay(v: Value, keys: seq<string>) {
    forall n | 0 <= n < |keys| :: Get(v, keys[..n]) == None || exists entries :: Get(v, keys[..n]) == Some(Map(entries))
  }

  lemma MapsBelow(v: Value, w: Value, keys: seq<string>)
    requires |keys| > 1 && MapsOnTheWay(v, keys) && v.Map? && Atoi(keys[0]).None?
    requires if keys[0] in v.entries then w == v.entries[keys[0]] else w == Map(map[])
    ensures MapsOnTheWay(w, keys[1..])
  {
    forall n | 0 <= n < |keys[1..]|
      ensures Get(w, keys[1..][..n]) == None || exists entries :: Get(w, keys[1..][..n]) == Some(Map(entries))
    {
      if keys[0] in v.entries {
        assert keys[..n + 1][1..] == keys[1..][..n] && keys[..n + 1][0] == keys[0];
        assert Get(v, keys[..n + 1]) == Get(w, keys[1..][..n]);
      } else if n == 0 {
        assert Get(w, keys[1..][..0]) == Some(Map(map[]));
      }
    }
  }

  /** A path of names only, with maps or nothing on the way, is written and reads back. */
  lemma {:induction false} NamesAreWritten(v: Value, keys: seq<string>, x: Value)
    requires keys != [] && (forall k | 0 <= k < |keys| :: Atoi(keys[k]).None?) && MapsOnTheWay(v, keys)
    ensures Set(v, keys, x).1 == Ok && Get(Set(v, keys, x).0, keys) == Some(x)
    decreases |keys|
  {
    assert keys[..0] == [] && Get(v, []) == Some(v);
    var key, rest := keys[0], keys[1..];
    if rest == [] {
      assert keys == [key];
      SetOneExactly(v, key, x);
      GetOneExactly(Set(v, keys, x).0, key);
    } else {
      var w := if key in v.entries then v.entries[key] else Map(map[]);
      MapsBelow(v, w, keys);
      NamesAreWritten(w, rest, x);
      assert keys == [key] + rest && rest[0] == keys[1];
      var whole := if key in v.entries then v else Map(v.entries[key := w]);
      if key !in v.entries {
        SetMakesContainer(v, key, rest, x);
      }
      SetGoesThrough(whole, key, rest, x);
    }
  }

  /** A number after a missing entry finds an empty slice, which has no such index. */
  lemma NumberMakesEmptySlice(v: Value, keys: seq<string>, x: Value)
    requires |keys| >= 2 && v.Map? && keys[0] !in v.entries && Atoi(keys[0]).None? && Atoi(keys[1]).Some?
    ensures Set(v, keys, x).1 == OutOfRange && Get(Set(v, keys, x).0, keys[..1]) == Some(Slice([]))
  {
    var rest := keys[1..];
    assert keys == [keys[0]] + rest && keys[..1] == [keys[0]];
    var whole := Map(v.entries[keys[0] := Slice([])]);
    SetMakesContainer(v, keys[0], rest, x);
    SetGoesThrough(whole, keys[0], rest, x);
    EmptySliceRefuses(rest, x);
    GetOneExactly(Set(v, keys, x).0, keys[0]);
  }

  lemma EmptySliceRefuses(keys: seq<string>, x: Value)
    requires keys != [] && Atoi(keys[0]).Some?
    ensures Set(Slice([]), keys, x) == (Slice([]), OutOfRange)
  {
  }

  /** The same below a nil element of a slice; and a path of names there is written and reads back. */
  lemma NilElementIsFilled(elems: seq<Value>, keys: seq<string>, x: Value)
    requires |keys| >= 2 && Atoi(keys[0]).Some? && 0 <= Atoi(keys[0]).value < |elems| && elems[Atoi(keys[0]).value] == Nil
    ensures var (after, status) := Set(Slice(elems), keys, x);
      && (Atoi(keys[1]).Some? ==> status == OutOfRange && Get(after, keys[..1]) == Some(Slice([])))
      && ((forall k | 1 <= k < |keys| :: Atoi(keys[k]).None?) ==> status == Ok && Get(after, keys) == Some(x))
  {
    var i, rest := Atoi(keys[0]).value, keys[1..];
    assert keys == [keys[0]] + rest && keys[..1] == [keys[0]];
    var made := if Atoi(rest[0]).Some? then Slice([]) else Map(map[]);
    SetMakesContainer(Slice(elems), keys[0], rest, x);
    SetGoesThrough(Slice(elems[i := made]), keys[0], rest, x);
    if Atoi(keys[1]).Some? {
      EmptySliceRefuses(rest, x);
      GetOneExactly(Set(Slice(elems), keys, x).0, keys[0]);
    } else if forall k | 1 <= k < |keys| :: Atoi(keys[k]).None? {
      NothingOnTheWay(rest);
      NamesAreWritten(made, rest, x);
    }
  }

  lemma NothingOnTheWay(keys: seq<string>)
    ensures MapsOnTheWay(Map(map[]), keys)
  {
    forall n | 0 <= n < |keys|
      ensures Get(Map(map[]), keys[..n]) == None || exists entries :: Get(Map(map[]), keys[..n]) == Some(Map(entries))
    {
      if n == 0 {
        assert Get(Map(map[]), keys[..0]) == Some(Map(map[]));
      }
    }
  }

  // ---------------------------------------------------------------- the laws

  /** Every key of the path fits the container the write meets, down to the leaf. */
  predicate Matches(v: Value, keys: seq<string>)
    requires keys != []
    decreases |keys|
  {
    match v
    case Map(entries) => Atoi(keys[0]).None? && (|keys| == 1 || Matches(ChildOfMap(entries, keys), keys[1..]))
    case Slice(elems) =>
      var i := Atoi(keys[0]);
      && i.Some? && 0 <= i.value < |elems|
      && (|keys| == 1 || Matches(ChildOfSlice(elems, i.value, keys), keys[1..]))
    case _ => false
  }

  /**
    Reading a path after writing it returns the written value exactly when every key matched its
    container; otherwise the path reads as absent.
   */
  lemma {:induction false} GetAfterSet(v: Value, keys: seq<string>, x: Value)
    requires keys != []
    ensures Get(Set(v, keys, x).0, keys) == if Matches(v, keys) then Some(x) else None
    ensures Matches(v, keys) ==> Set(v, keys, x).1 == Ok
    decreases |keys|
  {
    if |keys| > 1 {
      match v
      case Map(entries) => GetAfterSet(ChildOfMap(entries, keys), keys[1..], x);
      case Slice(elems) =>
        var i := Atoi(keys[0]);
        if i.Some? && 0 <= i.value < |elems| {
          GetAfterSet(ChildOfSlice(elems, i.value, keys), keys[1..], x);
        }
      case _ =>
    } else {
      assert keys[1..] == [];
    }
  }

  /** Keys that name the same place: slice indices compare as numbers. */
  predicate SameKey(a: string, b: string) {
    a == b || (Atoi(a).Some? && Atoi(a) == Atoi(b))
  }

  /** Neither path is a prefix of the other. */
  predicate Apart(p: seq<string>, q: seq<string>) {
    p != [] && q != [] && (SameKey(p[0], q[0]) ==> Apart(p[1..], q[1..]))
  }

  lemma {:induction false} ApartMeansDiffer(p: seq<string>, q: seq<string>)
    ensures Apart(p, q) <==> exists i :: 0 <= i < |p| && i < |q| && !SameKey(p[i], q[i])
  {
    if p != [] && q != [] && SameKey(p[0], q[0]) {
      ApartMeansDiffer(p[1..], q[1..]);
      if Apart(p, q) {
        var i :| 0 <= i < |p[1..]| && i < |q[1..]| && !SameKey(p[1..][i], q[1..][i]);
        assert !SameKey(p[i + 1], q[i + 1]);
      }
      if i :| 0 <= i < |p| && i < |q| && !SameKey(p[i], q[i]) {
        assert !SameKey(p[1..][i - 1], q[1..][i - 1]);
      }
    }
  }

  lemma NothingInNewContainer(next: string, q: seq<string>)
    requires q != []
    ensures Get(NewContainer(next), q) == None && Get(Nil, q) == None
  {
  }

  /**
    A write changes nothing off its path: whether it succeeds, fails or is blocked, every path
    that is neither a prefix nor an extension of it reads as before.
   */
  lemma {:induction false} SetLeavesOtherPaths(v: Value, p: seq<string>, x: Value, q: seq<string>)
    requires Apart(p, q)
    ensures Get(Set(v, p, x).0, q) == Get(v, q)
    decreases |p|
  {
    if SameKey(p[0], q[0]) {
      match v
      case Map(entries) =>
        SetLeavesOtherPaths(ChildOfMap(entries, p), p[1..], x, q[1..]);
        NothingInNewContainer(p[1], q[1..]);
      case Slice(elems) =>
        var i := Atoi(p[0]);
        if i.Some? && 0 <= i.value < |elems| {
          SetLeavesOtherPaths(ChildOfSlice(elems, i.value, p), p[1..], x, q[1..]);
          NothingInNewContainer(p[1], q[1..]);
        }
      case _ =>
    }
  }

  /** A second write to the same path fares as it would have without the first, and leaves nothing of it. */
  lemma {:induction false} LastWriteWins(v: Value, keys: seq<string>, x: Value, y: Value)
    requires keys != []
    ensures Set(Set(v, keys, x).0, keys, y) == Set(v, keys, y)
    decreases |keys|
  {
    match v
    case Map(entries) =>
      var child := if |keys| == 1 then x else Set(ChildOfMap(entries, keys), keys[1..], x).0;
      OverwriteEntry(entries, keys[0], child, if |keys| == 1 then y else Set(child, keys[1..], y).0);
      if |keys| > 1 {
        LastWriteWins(ChildOfMap(entries, keys), keys[1..], x, y);
      }
    case Slice(elems) =>
      var i := Atoi(keys[0]);
      if i.Some? && 0 <= i.value < |elems| {
        var child := if |keys| == 1 then x else Set(ChildOfSlice(elems, i.value, keys), keys[1..], x).0;
        OverwriteElem(elems, i.value, child, if |keys| == 1 then y else Set(child, keys[1..], y).0);
        if |keys| > 1 {
          LastWriteWins(ChildOfSlice(elems, i.value, keys), keys[1..], x, y);
        }
      }
    case _ =>
  }

  lemma OverwriteEntry(entries: map<string, Value>, key: string, a: Value, b: Value)
    ensures entries[key := a][key := b] == entries[key := b]
  {
  }

  lemma OverwriteElem(elems: seq<Value>, i: nat, a: Value, b: Value)
    requires i < |elems|
    ensures elems[i := a][i := b] == elems[i := b]
  {
  }

  /** The container that the write meets at key n; Nil behind a key that does not fit. */
  function Met(v: Value, keys: seq<string>, n: nat): Value
    requires n < |keys|
    decreases n
  {
    if n == 0 then v
    else
      match v
      case Map(entries) => Met(ChildOfMap(entries, keys), keys[1..], n - 1)
      case Slice(elems) =>
        (match Atoi(keys[0])
         case Some(i) => if 0 <= i < |elems| then Met(ChildOfSlice(elems, i, keys), keys[1..], n - 1) else Nil
         case None => Nil)
      case _ => Nil
  }

  predicate MeetsNonNumber(v: Value, keys: seq<string>, n: nat)
    requires n < |keys|
  {
    Met(v, keys, n).Slice? && Atoi(keys[n]).None?
  }

  predicate MeetsBadIndex(v: Value, keys: seq<string>, n: nat)
    requires n < |keys|
  {
    var c := Met(v, keys, n);
    c.Slice? && match Atoi(keys[n]) case Some(i) => i < 0 || i >= |c.elems| case None => false
  }

  lemma MetBelow(v: Value, keys: seq<string>, n: nat)
    requires 0 < n < |keys|
    ensures v.Map? ==> Met(v, keys, n) == Met(ChildOfMap(v.entries, keys), keys[1..], n - 1)
    ensures v.Slice? && Atoi(keys[0]).Some? && 0 <= Atoi(keys[0]).value < |v.elems| ==>
      Met(v, keys, n) == Met(ChildOfSlice(v.elems, Atoi(keys[0]).value, keys), keys[1..], n - 1)
    ensures !v.Map? && !v.Slice? ==> Met(v, keys, n) == Nil
    ensures v.Slice? && (Atoi(keys[0]).None? || !(0 <= Atoi(keys[0]).value < |v.elems|)) ==> Met(v, keys, n) == Nil
  {
  }

  /** The kid that a write goes on with, where the first key fits. */
  function Kid(v: Value, keys: seq<string>): Option<Value>
    requires |keys| > 1
  {
    match v
    case Map(entries) => Some(ChildOfMap(entries, keys))
    case Slice(elems) =>
      var i := Atoi(keys[0]);
      if i.Some? && 0 <= i.value < |elems| then Some(ChildOfSlice(elems, i.value, keys)) else None
    case _ => None
  }

  lemma MisfitsShift(v: Value, keys: seq<string>, n: nat)
    requires 0 < n < |keys|
    ensures match Kid(v, keys)
            case None => Met(v, keys, n) == Nil
            case Some(k) => (MeetsNonNumber(v, keys, n) <==> MeetsNonNumber(k, keys[1..], n - 1))
                            && (MeetsBadIndex(v, keys, n) <==> MeetsBadIndex(k, keys[1..], n - 1))
  {
    MetBelow(v, keys, n);
    assert keys[1..][n - 1] == keys[n];
  }

  /**
    When a write fails, and how: it meets a slice with a key that is not a number, or with a
    number that is no index of it. A scalar or a nil on the way is not an error.
   */
  lemma {:induction false} ErrorsExactly(v: Value, keys: seq<string>, x: Value)
    requires keys != []
    ensures Set(v, keys, x).1 == NotANumber <==> exists n | 0 <= n < |keys| :: MeetsNonNumber(v, keys, n)
    ensures Set(v, keys, x).1 == OutOfRange <==> exists n | 0 <= n < |keys| :: MeetsBadIndex(v, keys, n)
    decreases |keys|
  {
    if |keys| > 1 {
      forall n | 0 < n < |keys|
        ensures match Kid(v, keys)
                case None => !MeetsNonNumber(v, keys, n) && !MeetsBadIndex(v, keys, n)
                case Some(k) => (MeetsNonNumber(v, keys, n) <==> MeetsNonNumber(k, keys[1..], n - 1))
                                && (MeetsBadIndex(v, keys, n) <==> MeetsBadIndex(k, keys[1..], n - 1))
      {
        MisfitsShift(v, keys, n);
      }
      if Kid(v, keys).Some? {
        var k := Kid(v, keys).value;
        ErrorsExactly(k, keys[1..], x);
        assert !MeetsNonNumber(v, keys, 0) && !MeetsBadIndex(v, keys, 0);
        if n :| 0 <= n < |keys[1..]| && MeetsNonNumber(k, keys[1..], n) {
          assert MeetsNonNumber(v, keys, n + 1);
        }
        if n :| 0 <= n < |keys[1..]| && MeetsBadIndex(k, keys[1..], n) {
          assert MeetsBadIndex(v, keys, n + 1);
        }
        if n :| 0 <= n < |keys| && MeetsNonNumber(v, keys, n) {
          assert MeetsNonNumber(k, keys[1..], n - 1);
        }
        if n :| 0 <= n < |keys| && MeetsBadIndex(v, keys, n) {
          assert MeetsBadIndex(k, keys[1..], n - 1);
        }
        return;
      }
    }
    assert v.Slice? && Atoi(keys[0]).None? ==> MeetsNonNumber(v, keys, 0);
    assert v.Slice? && Atoi(keys[0]).Some? && !(0 <= Atoi(keys[0]).value < |v.elems|) ==> MeetsBadIndex(v, keys, 0);
  }

  /** A write that does not store its value leaves the same tree whatever the value was. */
  lemma {:induction false} FailedWriteStoresNothing(v: Value, keys: seq<string>, x: Value, y: Value)
    requires keys != [] && Set(v, keys, x).1 != Ok
    ensures Set(v, keys, x) == Set(v, keys, y)
    decreases |keys|
  {
    match v
    case Map(entries) => FailedWriteStoresNothing(ChildOfMap(entries, keys), keys[1..], x, y);
    case Slice(elems) =>
      var i := Atoi(keys[0]);
      if i.Some? && 0 <= i.value < |elems| {
        FailedWriteStoresNothing(ChildOfSlice(elems, i.value, keys), keys[1..], x, y);
      }
    case _ => assert false;
  }
}

/**
  The ranking service on one Redis sorted set (pkg/services/ranking.go).

  A sorted set is kept in its reverse order, best rank first; scores are real numbers, so what
  the model says about a score holds up to floating-point rounding.
 */
module Ranking {
  import opened Wrappers
  import opened Lex

  datatype Item = Item(member: string, score: real)

  /** Reverse rank order: higher score first, and the greater member first among equal scores. */
  predicate Above(a: Item, b: Item) {
    a.score > b.score || (a.score == b.score && Less(b.member, a.member))
  }

  ghost predicate DistinctMembers(z: seq<Item>) {
    forall i, j | 0 <= i < j < |z| :: z[i].member != z[j].member
  }

  ghost predicate IsSortedSet(z: seq<Item>) {
    DistinctMembers(z) && forall i, j | 0 <= i < j < |z| :: Above(z[i], z[j])
  }

  /** The higher score ranks above; of equal scores the member that comes later in the order of strings does. */
  lemma AboveExactly(a: Item, b: Item)
    ensures a.score > b.score ==> Above(a, b)
    ensures a.score < b.score ==> !Above(a, b)
    ensures a.score == b.score ==> (Above(a, b) <==> Less(b.member, a.member))
    ensures Above(Item("b", a.score), Item("a", a.score))
  {
    assert Less("a", "b");
  }

  lemma AboveIsAsymmetric(a: Item, b: Item)
    requires Above(a, b)
    ensures !Above(b, a)
  {
    if a.score == b.score && Less(a.member, b.member) {
      LessIsTransitive(a.member, b.member, a.member);
      LessIsIrreflexive(a.member);
    }
  }

  /** The items that rank before the one at index i are as many as i: an index is a rank. */
  lemma IndexIsRank(z: seq<Item>, i: nat)
    requires IsSortedSet(z) && i < |z|
    ensures |set x | x in z && Above(x, z[i])| == i
  {
    forall x | x in z ensures Above(x, z[i]) <==> x in z[..i] {
      var k :| 0 <= k < |z| && z[k] == x;
      if k == i {
        LessIsIrreflexive(x.member);
      } else if k > i {
        AboveIsAsymmetric(z[i], x);
      }
      if x in z[..i] {
        var j :| 0 <= j < i && z[j] == x;
      }
    }
    assert (set x | x in z && Above(x, z[i])) == Elements(z[..i]);
    ElementsCount(z[..i]);
  }

  function Elements(z: seq<Item>): set<Item> {
    set x | x in z
  }

  lemma {:induction false} ElementsCount(z: seq<Item>)
    requires DistinctMembers(z)
    ensures |Elements(z)| == |z|
  {
    if z != [] {
      var rest, last := z[..|z| - 1], z[|z| - 1];
      ElementsCount(rest);
      assert z == rest + [last];
      assert Elements(z) == Elements(rest) + {last};
    }
  }

  // ---------------------------------------------------------------- truncation

  /** ZRANGE +inf -inf BYSCORE REV LIMIT offset count: a negative count has no end, a negative offset no elements. */
  function RevRange(z: seq<Item>, offset: int, count: int): seq<Item> {
    if offset < 0 || offset >= |z| then []
    else if count < 0 || offset + count >= |z| then z[offset..]
    else z[offset..offset + count]
  }

  function Members(items: seq<Item>): seq<string> {
    if items == [] then [] else [items[0].member] + Members(items[1..])
  }

  function ZRem(z: seq<Item>, members: seq<string>): seq<Item> {
    if z == [] then []
    else (if z[0].member in members then [] else [z[0]]) + ZRem(z[1..], members)
  }

  /** The truncation script: what is left, and how many members ZREM removed. */
  function TruncateScript(z: seq<Item>, size: int, count: int): (seq<Item>, int) {
    var doomed := RevRange(z, size, count);
    if doomed == [] then (z, 0)
    else
      var kept := ZRem(z, Members(doomed));
      (kept, |z| - |kept|)
  }

  /** The best `size` members; a negative size keeps everybody. */
  function Top(z: seq<Item>, size: int): seq<Item> {
    if size < 0 || size >= |z| then z else z[..size]
  }

  lemma {:induction false} MembersContain(items: seq<Item>)
    ensures forall m :: m in Members(items) <==> exists k :: 0 <= k < |items| && items[k].member == m
  {
    if items != [] {
      MembersContain(items[1..]);
      forall m | exists k :: 0 <= k < |items| && items[k].member == m
        ensures m in Members(items)
      {
        var k :| 0 <= k < |items| && items[k].member == m;
        if k > 0 {
          assert items[1..][k - 1].member == m;
        }
      }
    }
  }

  lemma {:induction false} ZRemConcat(a: seq<Item>, b: seq<Item>, members: seq<string>)
    ensures ZRem(a + b, members) == ZRem(a, members) + ZRem(b, members)
  {
    if a == [] {
      assert a + b == b;
    } else {
      assert (a + b)[1..] == a[1..] + b;
      ZRemConcat(a[1..], b, members);
    }
  }

  lemma {:induction false} ZRemAllOrNone(z: seq<Item>, members: seq<string>)
    ensures (forall k | 0 <= k < |z| :: z[k].member in members) ==> ZRem(z, members) == []
    ensures (forall k | 0 <= k < |z| :: z[k].member !in members) ==> ZRem(z, members) == z
  {
    if z != [] {
      ZRemAllOrNone(z[1..], members);
      assert z == [z[0]] + z[1..];
    }
  }

  ghost predicate Separate(a: seq<Item>, b: seq<Item>) {
    forall i, j | 0 <= i < |a| && 0 <= j < |b| :: a[i].member != b[j].member
  }

  lemma PartsAreSeparate(a: seq<Item>, b: seq<Item>, c: seq<Item>)
    requires DistinctMembers(a + (b + c))
    ensures Separate(a, b) && Separate(c, b)
  {
    var z := a + (b + c);
    forall i, j | 0 <= i < |a| && 0 <= j < |b| ensures a[i].member != b[j].member {
      assert z[i] == a[i] && z[|a| + j] == b[j];
    }
    forall i, j | 0 <= i < |c| && 0 <= j < |b| ensures c[i].member != b[j].member {
      assert z[|a| + |b| + i] == c[i] && z[|a| + j] == b[j];
    }
  }

  /** Removing the members of a stretch by name removes the stretch and nothing else. */
  lemma ZRemOfMiddle(a: seq<Item>, b: seq<Item>, c: seq<Item>)
    requires Separate(a, b) && Separate(c, b)
    ensures ZRem(a + (b + c), Members(b)) == a + c
  {
    MembersContain(b);
    ZRemConcat(a, b + c, Members(b));
    ZRemConcat(b, c, Members(b));
    ZRemAllOrNone(a, Members(b));
    ZRemAllOrNone(b, Members(b));
    ZRemAllOrNone(c, Members(b));
  }

  /** A script run removes one stretch of ranks: it starts at `size` and has as many members as it reports. */
  lemma ScriptRemovesSlice(z: seq<Item>, size: int, count: int)
    requires IsSortedSet(z)
    ensures var (kept, removed) := TruncateScript(z, size, count);
      && removed == |RevRange(z, size, count)|
      && (if removed == 0 then kept == z else kept == z[..size] + z[size + removed..])
  {
    var doomed := RevRange(z, size, count);
    if doomed != [] {
      var n := |doomed|;
      RangeIsStretch(z, size, count);
      ZRemOfStretch(z, size, size + n);
      assert |z[..size] + z[size + n..]| == |z| - n;
    }
  }

  lemma RangeIsStretch(z: seq<Item>, size: int, count: int)
    requires RevRange(z, size, count) != []
    ensures var n := |RevRange(z, size, count)|; 0 <= size && size + n <= |z| && RevRange(z, size, count) == z[size..size + n]
  {
  }

  lemma ZRemOfStretch(z: seq<Item>, i: nat, j: nat)
    requires DistinctMembers(z) && i <= j <= |z|
    ensures ZRem(z, Members(z[i..j])) == z[..i] + z[j..]
  {
    var a, b, c := z[..i], z[i..j], z[j..];
    SplitInThree(z, i, j);
    ZRemOfPart(a, b, c);
  }

  lemma SplitInThree(z: seq<Item>, i: nat, j: nat)
    requires i <= j <= |z|
    ensures z == z[..i] + (z[i..j] + z[j..])
  {
  }

  lemma ZRemOfPart(a: seq<Item>, b: seq<Item>, c: seq<Item>)
    requires DistinctMembers(a + (b + c))
    ensures ZRem(a + (b + c), Members(b)) == a + c
  {
    PartsAreSeparate(a, b, c);
    ZRemOfMiddle(a, b, c);
  }

  /** How many members one run of the script removes, for every size and every count. */
  lemma ScriptCountsExactly(z: seq<Item>, size: int, count: int)
    requires IsSortedSet(z)
    ensures var (kept, removed) := TruncateScript(z, size, count);
      && removed == (if size < 0 || size >= |z| then 0
                     else if count < 0 || count > |z| - size then |z| - size
                     else count)
      && kept == (if removed == 0 then z else z[..size] + z[size + removed..])
  {
    ScriptRemovesSlice(z, size, count);
  }

  lemma CutKeepsOrder(z: seq<Item>, i: nat, j: nat)
    requires IsSortedSet(z) && i <= j <= |z|
    ensures IsSortedSet(z[..i] + z[j..])
  {
    var c := z[..i] + z[j..];
    forall p, q | 0 <= p < q < |c| ensures c[p].member != c[q].member && Above(c[p], c[q]) {
      var p', q' := if p < i then p else p + j - i, if q < i then q else q + j - i;
      assert c[p] == z[p'] && c[q] == z[q'];
    }
  }

  /** One-shot truncation leaves the best `size` members and counts the others. */
  lemma OneShotKeepsTop(z: seq<Item>, size: int)
    requires IsSortedSet(z)
    ensures TruncateScript(z, size, -1) == (Top(z, size), |z| - |Top(z, size)|)
    ensures size >= 0 ==> forall x :: x in Top(z, size) <==> x in z && |set y | y in z && Above(y, x)| < size
  {
    ScriptRemovesSlice(z, size, -1);
    if 0 <= size < |z| {
      assert z[..size] + z[|z|..] == z[..size];
    }
    if size >= 0 {
      forall x | x in z ensures x in Top(z, size) <==> |set y | y in z && Above(y, x)| < size {
        var k :| 0 <= k < |z| && z[k] == x;
        IndexIsRank(z, k);
        if k < size {
          assert Top(z, size)[k] == x;
        }
      }
    }
  }

  // ---------------------------------------------------------------- scores and request keys

  function Floor(x: real): int {
    x.Floor
  }

  function PowerOfTen(n: nat): (p: int)
    ensures p >= 1
  {
    if n == 0 then 1 else 10 * PowerOfTen(n - 1)
  }

  function Digits(n: nat): nat {
    if n < 10 then 1 else 1 + Digits(n / 10)
  }

  lemma {:induction false} DigitsSuffice(n: nat)
    ensures n < PowerOfTen(Digits(n))
  {
    if n >= 10 {
      DigitsSuffice(n / 10);
    } else {
      assert PowerOfTen(1) == 10;
    }
  }

  lemma PowersOfTen(n: nat)
    ensures PowerOfTen(0) == 1 && PowerOfTen(n + 1) == 10 * PowerOfTen(n)
  {
  }

  /** A number has d digits exactly from 10^(d-1) up to 10^d. */
  lemma {:induction false} DigitsExactly(n: nat, d: nat)
    requires n > 0 && d >= 1
    ensures Digits(n) == d <==> PowerOfTen(d - 1) <= n < PowerOfTen(d)
  {
    PowersOfTen(d - 1);
    if d >= 2 {
      PowersOfTen(d - 2);
    }
    if n >= 10 && d >= 2 {
      DigitsExactly(n / 10, d - 1);
    }
  }

  /** "0." followed by the decimal digits of the seconds left; a minus sign does not parse. */
  function Fraction(secondsLeft: int): Option<real> {
    if secondsLeft < 0 then None
    else Some(secondsLeft as real / PowerOfTen(Digits(secondsLeft)) as real)
  }

  lemma FractionStaysBelowOne(secondsLeft: int)
    requires secondsLeft >= 0
    ensures 0.0 <= Fraction(secondsLeft).value < 1.0
  {
    DigitsSuffice(secondsLeft);
    DivideBelowOne(secondsLeft as real, PowerOfTen(Digits(secondsLeft)) as real);
  }

  /** The digits of the seconds stand behind the point. */
  lemma FractionExactly(n: nat, d: nat)
    requires n > 0 && d >= 1 && PowerOfTen(d - 1) <= n < PowerOfTen(d)
    ensures Fraction(n) == Some(n as real / PowerOfTen(d) as real)
    ensures Fraction(0) == Some(0.0)
  {
    DigitsExactly(n, d);
    assert 0.0 / 10.0 == 0.0;
    PowersOfTen(0);
  }

  lemma DivideBelowOne(a: real, b: real)
    requires 0.0 <= a < b
    ensures 0.0 <= a / b < 1.0
  {
  }

  function ZScore(z: seq<Item>, member: string): Option<real> {
    if z == [] then None
    else if z[0].member == member then Some(z[0].score)
    else ZScore(z[1..], member)
  }

  function ZInsert(z: seq<Item>, item: Item): seq<Item> {
    if z == [] || Above(item, z[0]) then [item] + z else [z[0]] + ZInsert(z[1..], item)
  }

  function ZAdd(z: seq<Item>, member: string, score: real): seq<Item> {
    ZInsert(ZRem(z, [member]), Item(member, score))
  }

  lemma {:induction false} ZInsertKeepsOrder(z: seq<Item>, item: Item)
    requires IsSortedSet(z) && forall k | 0 <= k < |z| :: z[k].member != item.member
    ensures IsSortedSet(ZInsert(z, item))
    ensures forall x :: x in ZInsert(z, item) <==> x == item || x in z
  {
    if z != [] {
      if Above(item, z[0]) {
        forall k | 0 <= k < |z| ensures Above(item, z[k]) {
          if k > 0 {
            AboveIsTransitive(item, z[0], z[k]);
          }
        }
      } else {
        AboveIsTotal(item, z[0]);
        ZInsertKeepsOrder(z[1..], item);
        var rest := ZInsert(z[1..], item);
        forall k | 0 <= k < |rest| ensures Above(z[0], rest[k]) && z[0].member != rest[k].member {
          assert rest[k] in rest;
          if rest[k] != item {
            var j :| 0 <= j < |z[1..]| && z[1..][j] == rest[k];
            assert z[j + 1] == rest[k];
          }
        }
      }
    }
  }

  lemma AboveIsTransitive(a: Item, b: Item, c: Item)
    requires Above(a, b) && Above(b, c)
    ensures Above(a, c)
  {
    if a.score == b.score == c.score {
      LessIsTransitive(c.member, b.member, a.member);
    }
  }

  lemma AboveIsTotal(a: Item, b: Item)
    requires a.member != b.member
    ensures Above(a, b) || Above(b, a)
  {
    LessIsTotal(a.member, b.member);
  }

  lemma {:induction false} ZRemOneKeepsOrder(z: seq<Item>, member: string)
    requires IsSortedSet(z)
    ensures IsSortedSet(ZRem(z, [member]))
    ensures forall x :: x in ZRem(z, [member]) <==> x in z && x.member != member
  {
    if z != [] {
      ZRemOneKeepsOrder(z[1..], member);
      var rest := ZRem(z[1..], [member]);
      forall k | 0 <= k < |rest| ensures Above(z[0], rest[k]) && z[0].member != rest[k].member {
        assert rest[k] in rest;
        var j :| 0 <= j < |z[1..]| && z[1..][j] == rest[k];
        assert z[j + 1] == rest[k];
      }
      FirstKeepsOrder(z[0], rest);
    }
  }

  lemma FirstKeepsOrder(x: Item, rest: seq<Item>)
    requires IsSortedSet(rest) && forall k | 0 <= k < |rest| :: Above(x, rest[k]) && x.member != rest[k].member
    ensures IsSortedSet([x] + rest)
  {
  }

  lemma {:induction false} ZScoreFinds(z: seq<Item>, member: string)
    requires IsSortedSet(z)
    ensures forall s :: ZScore(z, member) == Some(s) <==> Item(member, s) in z
  {
    if z != [] {
      ZScoreFinds(z[1..], member);
      forall s | Item(member, s) in z ensures ZScore(z, member) == Some(s) {
        if z[0].member == member {
          var j :| 0 <= j < |z| && z[j] == Item(member, s);
        }
      }
    }
  }

  /** ZADD sets one member's score, and keeps the set sorted. */
  lemma ZAddSetsOneScore(z: seq<Item>, member: string, score: real, other: string)
    requires IsSortedSet(z)
    ensures IsSortedSet(ZAdd(z, member, score))
    ensures ZScore(ZAdd(z, member, score), other) == if other == member then Some(score) else ZScore(z, other)
  {
    ZRemOneKeepsOrder(z, member);
    var rest := ZRem(z, [member]);
    forall k | 0 <= k < |rest| ensures rest[k].member != member {
      assert rest[k] in rest;
    }
    ZInsertKeepsOrder(rest, Item(member, score));
    var z' := ZAdd(z, member, score);
    ZScoreFinds(z', other);
    ZScoreFinds(z, other);
    assert forall s :: Item(other, s) in z' <==> (if other == member then s == score else Item(other, s) in z);
    if other == member {
      assert ZScore(z', other) == Some(score);
    } else {
      match ZScore(z, other)
      case Some(s) => assert ZScore(z', other) == Some(s);
      case None =>
        if ZScore(z', other).Some? {
          assert Item(other, ZScore(z', other).value) in z;
        }
    }
  }
}

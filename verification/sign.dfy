/**
  The canonical serialisation of a string map that gets signed
  (internal/app/shared/crypto/sign.go). A string is a sequence of bytes here.
 */
module Sign {
  import opened Wrappers
  import opened Lex

  type Params = map<string, string>

  // ---------------------------------------------------------------- sorting the names

  ghost predicate Sorted(keys: seq<string>) {
    forall i, j | 0 <= i < j < |keys| :: !Less(keys[j], keys[i])
  }

  /** Any order in which Go may range over the map. */
  ghost predicate Enumerates(keys: seq<string>, params: Params) {
    NoRepeats(keys) && forall k :: k in keys <==> k in params
  }

  function Insert(keys: seq<string>, k: string): seq<string> {
    if keys == [] || Less(k, keys[0]) then [k] + keys else [keys[0]] + Insert(keys[1..], k)
  }

  /** Stands for the library's `sort.Strings`. */
  function SortStrings(keys: seq<string>): seq<string> {
    if keys == [] then [] else Insert(SortStrings(keys[1..]), keys[0])
  }

  lemma {:induction false} InsertElements(keys: seq<string>, k: string)
    ensures forall x :: x in Insert(keys, k) <==> x == k || x in keys
    ensures NoRepeats(keys) && k !in keys ==> NoRepeats(Insert(keys, k))
  {
    if keys != [] && !Less(k, keys[0]) {
      InsertElements(keys[1..], k);
      if NoRepeats(keys) && k !in keys {
        assert keys[0] !in Insert(keys[1..], k);
      }
    }
  }

  lemma {:induction false} InsertSorts(keys: seq<string>, k: string)
    requires Sorted(keys)
    ensures Sorted(Insert(keys, k))
  {
    if keys != [] {
      if Less(k, keys[0]) {
        forall i | 0 <= i < |keys| ensures !Less(keys[i], k) {
          if Less(keys[i], k) {
            LessIsTransitive(keys[i], k, keys[0]);
            if i == 0 {
              LessIsIrreflexive(keys[0]);
            }
          }
        }
      } else {
        InsertSorts(keys[1..], k);
        InsertElements(keys[1..], k);
        var t := Insert(keys[1..], k);
        forall i | 0 <= i < |t| ensures !Less(t[i], keys[0]) {
          assert t[i] in t;
        }
      }
    }
  }

  lemma {:induction false} SortStringsSorts(keys: seq<string>)
    requires NoRepeats(keys)
    ensures Sorted(SortStrings(keys)) && NoRepeats(SortStrings(keys))
    ensures forall x :: x in SortStrings(keys) <==> x in keys
  {
    if keys != [] {
      SortStringsSorts(keys[1..]);
      InsertSorts(SortStrings(keys[1..]), keys[0]);
      InsertElements(SortStrings(keys[1..]), keys[0]);
      assert keys[0] !in keys[1..];
    }
  }

  lemma FirstOf(keys: seq<string>) returns (x: string)
    requires keys != []
    ensures x in keys
  {
    x := keys[0];
  }

  lemma HeadIsLeast(a: seq<string>, b: seq<string>)
    requires Sorted(a) && Sorted(b) && a != [] && b != []
    requires forall x :: x in a <==> x in b
    ensures a[0] == b[0]
  {
    assert a[0] in b && b[0] in a;
    LessIsTotal(a[0], b[0]);
    LessIsIrreflexive(a[0]);
  }

  /** There is only one sorted listing of a set of names. */
  lemma {:induction false} SortedListingIsUnique(a: seq<string>, b: seq<string>)
    requires Sorted(a) && Sorted(b) && NoRepeats(a) && NoRepeats(b)
    requires forall x :: x in a <==> x in b
    ensures a == b
  {
    if a == [] {
      if b != [] {
        var x := FirstOf(b);
      }
    } else {
      assert a[0] in b;
      HeadIsLeast(a, b);
      forall x ensures x in a[1..] <==> x in b[1..] {
        assert x in a <==> x == a[0] || x in a[1..];
        assert x in b <==> x == b[0] || x in b[1..];
        assert a[0] !in a[1..] && b[0] !in b[1..];
      }
      SortedListingIsUnique(a[1..], b[1..]);
    }
  }

  // ---------------------------------------------------------------- writing

  function Pairs(keys: seq<string>, params: Params): string
    requires forall k | k in keys :: k in params
  {
    if keys == [] then [] else keys[0] + "=" + params[keys[0]] + "&" + Pairs(keys[1..], params)
  }

  function DropLast(s: string): string {
    if s == [] then [] else s[..|s| - 1]
  }

  /** The bytes for a map that is ranged over in the given order; none for the empty map. */
  ghost function Bytes(params: Params, order: seq<string>): string
    requires Enumerates(order, params)
  {
    SortStringsSorts(order);
    DropLast(Pairs(SortStrings(order), params))
  }

  method StringfyMap(params: Params, order: seq<string>) returns (bytes: string)
    requires Enumerates(order, params)
    ensures bytes == Bytes(params, order)
  {
    if |params| == 0 {
      EmptyOrder(order, params);
      return [];
    }
    SortStringsSorts(order);
    var keys := SortStrings(order);
    NonEmptyOrder(order, keys, params);
    var buf := WriteAll(keys, params);
    bytes := buf[..|buf| - 1];
  }

  method WriteAll(keys: seq<string>, params: Params) returns (buf: string)
    requires forall k | k in keys :: k in params
    ensures buf == Pairs(keys, params)
  {
    buf := [];
    for i := 0 to |keys|
      invariant buf + Pairs(keys[i..], params) == Pairs(keys, params)
    {
      var k := keys[i];
      PairsStep(keys[i..], params, buf);
      assert keys[i..][1..] == keys[i + 1..];
      buf := buf + (k + "=" + params[k] + "&");
    }
    assert keys[|keys|..] == [];
  }

  lemma PairsStep(keys: seq<string>, params: Params, buf: string)
    requires keys != [] && forall k | k in keys :: k in params
    ensures buf + Pairs(keys, params) == buf + (keys[0] + "=" + params[keys[0]] + "&") + Pairs(keys[1..], params)
  {
  }

  lemma EmptyOrder(order: seq<string>, params: Params)
    requires Enumerates(order, params) && |params| == 0
    ensures order == []
  {
    if order != [] {
      var x := FirstOf(order);
    }
  }

  lemma NonEmptyOrder(order: seq<string>, keys: seq<string>, params: Params)
    requires Enumerates(order, params) && |params| > 0
    requires forall k :: k in keys <==> k in order
    ensures Pairs(keys, params) != []
  {
    var k :| k in params;
    assert k in order;
    assert k in keys;
  }

  // ---------------------------------------------------------------- order does not matter

  /** The same map gives the same bytes in whatever order it is ranged over. */
  lemma BytesIgnoreOrder(params: Params, order: seq<string>, order': seq<string>)
    requires Enumerates(order, params) && Enumerates(order', params)
    ensures Bytes(params, order) == Bytes(params, order')
  {
    SortStringsSorts(order);
    SortStringsSorts(order');
    SortedListingIsUnique(SortStrings(order), SortStrings(order'));
  }

  // ---------------------------------------------------------------- reading back

  /** Name and value of one item, split at the first equals sign. */
  function Item(s: string): (string, string) {
    var e := IndexOf(s, '=');
    (s[..e], if e < |s| then s[e + 1..] else [])
  }

  /** The map that a text of items, each ended by an ampersand, stands for. */
  function ParsePairs(s: string): Params
    decreases |s|
  {
    var i := IndexOf(s, '&');
    if i == |s| then map[]
    else
      var (k, v) := Item(s[..i]);
      ParsePairs(s[i + 1..])[k := v]
  }

  function Parse(bytes: string): Params {
    if bytes == [] then map[] else ParsePairs(bytes + "&")
  }

  predicate Unambiguous(k: string, v: string) {
    '=' !in k && '&' !in k && '&' !in v
  }

  /** No name holds '=' or '&', and no value holds '&'. */
  predicate Plain(params: Params) {
    forall k | k in params :: Unambiguous(k, params[k])
  }

  lemma IndexOfJoin(a: string, c: char, b: string)
    requires c !in a
    ensures IndexOf(a + ([c] + b), c) == |a|
  {
    var s := a + ([c] + b);
    assert s[|a|] == c;
    assert forall j | 0 <= j < |a| :: s[j] == a[j];
  }

  lemma ItemOfPair(k: string, v: string)
    requires '=' !in k
    ensures Item(k + ("=" + v)) == (k, v)
  {
    IndexOfJoin(k, '=', v);
    var s := k + ("=" + v);
    assert s[..|k|] == k && s[|k| + 1..] == v;
  }

  function Restrict(params: Params, keys: seq<string>): Params
    requires forall k | k in keys :: k in params
  {
    map k | k in keys :: params[k]
  }

  lemma FirstItem(item: string, rest: string)
    requires '&' !in item
    ensures var s := item + (['&'] + rest);
      IndexOf(s, '&') == |item| && s[..|item|] == item && s[|item| + 1..] == rest
  {
    IndexOfJoin(item, '&', rest);
  }

  lemma {:induction false} PairsParse(keys: seq<string>, params: Params)
    requires forall k | k in keys :: k in params
    requires Plain(params)
    ensures ParsePairs(Pairs(keys, params)) == Restrict(params, keys)
  {
    if keys != [] {
      var k, v := keys[0], params[keys[0]];
      var rest := Pairs(keys[1..], params);
      var item := k + ("=" + v);
      var s := Pairs(keys, params);
      assert s == item + (['&'] + rest);
      assert '&' !in item;
      FirstItem(item, rest);
      ItemOfPair(k, v);
      PairsParse(keys[1..], params);
      assert Restrict(params, keys) == Restrict(params, keys[1..])[k := v];
    }
  }

  lemma {:induction false} ParsedIsPlain(s: string)
    ensures Plain(ParsePairs(s))
    decreases |s|
  {
    var i := IndexOf(s, '&');
    if i < |s| {
      ParsedIsPlain(s[i + 1..]);
      var item := s[..i];
      var e := IndexOf(item, '=');
      assert forall j | 0 <= j < e :: item[..e][j] == item[j];
      assert forall j | e < j < |item| :: item[e + 1..][j - e - 1] == item[j];
      assert Unambiguous(Item(item).0, Item(item).1);
    }
  }

  lemma {:induction false} PairsEndInAmpersand(keys: seq<string>, params: Params)
    requires forall k | k in keys :: k in params
    requires keys != []
    ensures |Pairs(keys, params)| >= 2 && Pairs(keys, params)[|Pairs(keys, params)| - 1] == '&'
  {
    if |keys| > 1 {
      PairsEndInAmpersand(keys[1..], params);
    }
  }

  /** Reading the bytes back gives the map exactly when names and values are plain. */
  lemma ParseUndoesBytesExactly(params: Params, order: seq<string>)
    requires Enumerates(order, params)
    ensures Parse(Bytes(params, order)) == params <==> Plain(params)
  {
    SortStringsSorts(order);
    var keys := SortStrings(order);
    var text := Pairs(keys, params);
    if keys == [] {
      assert params == map[];
    } else {
      PairsEndInAmpersand(keys, params);
      assert DropLast(text) + "&" == text;
      if Plain(params) {
        PairsParse(keys, params);
        assert Restrict(params, keys) == params;
      }
      ParsedIsPlain(text);
    }
  }

  /** Plain maps with the same bytes are the same map. */
  lemma BytesAreInjective(params: Params, order: seq<string>, params': Params, order': seq<string>)
    requires Enumerates(order, params) && Enumerates(order', params') && Plain(params) && Plain(params')
    requires Bytes(params, order) == Bytes(params', order')
    ensures params == params'
  {
    ParseUndoesBytesExactly(params, order);
    ParseUndoesBytesExactly(params', order');
  }

  /** An ampersand in a value passes for another parameter. */
  lemma AmpersandCollides()
    ensures Bytes(map["a" := "b&c=d"], ["a"]) == Bytes(map["a" := "b", "c" := "d"], ["a", "c"])
  {
    var one, two := map["a" := "b&c=d"], map["a" := "b", "c" := "d"];
    assert SortStrings(["a"]) == ["a"];
    assert Pairs(["a"], one) == "a=b&c=d&";
    assert ["a", "c"][1..] == ["c"];
    assert SortStrings(["c"]) == ["c"];
    assert SortStrings(["a", "c"]) == ["a", "c"];
    assert Pairs(["c"], two) == "c=d&";
    assert Pairs(["a", "c"], two) == "a=b&" + "c=d&";
  }

  /** The text itself: names in order, each with an equals sign and its value, ampersands between them. */
  lemma CanonicalText()
    ensures Bytes(map["b" := "2", "a" := "1"], ["b", "a"]) == "a=1&b=2"
    ensures Bytes(map[], []) == ""
  {
    var order := ["b", "a"];
    assert order[1..] == ["a"] && ["a"][1..] == [];
    assert SortStrings(["a"]) == Insert([], "a");
    assert SortStrings(order) == Insert(["a"], "b");
    assert Less("a", "b") && !Less("b", "a");
    var keys := ["a", "b"];
    assert ["b"][1..] == [] && keys[1..] == ["b"];
    var params := map["b" := "2", "a" := "1"];
    assert Pairs(["b"], params) == "b=2&";
    assert Pairs(keys, params) == "a=1&" + "b=2&";
  }
}

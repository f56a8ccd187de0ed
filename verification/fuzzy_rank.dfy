/**
  Approximate ranks from counted score ranges (pkg/services/ranking.go).

  The ranges come out of a hash map in any order and are sorted by descending start; the sort
  is not stable, so any descending rearrangement of the ranges may be what is scanned.
 */
module FuzzyRank {
  import opened Wrappers

  /** Members with rangeStart <= score < rangeEnd. */
  datatype Range = Range(rangeStart: int, rangeEnd: int, count: int)

  predicate Contains(r: Range, score: int) {
    r.rangeStart <= score < r.rangeEnd
  }

  /** `Floor` of the real quotient that estimates the place within the range that holds the score. */
  function PlaceInRange(r: Range, score: int): int
    requires Contains(r, score)
  {
    (r.rangeEnd - score) / (r.rangeEnd - r.rangeStart)
  }

  /** The estimate is 1 on the first score of a range and 0 on every other. */
  lemma PlaceIsZeroOrOne(r: Range, score: int)
    requires Contains(r, score)
    ensures PlaceInRange(r, score) == if score == r.rangeStart then 1 else 0
    ensures PlaceInRange(r, score) == ((r.rangeEnd - score) as real / (r.rangeEnd - r.rangeStart) as real).Floor
  {
    var a, b := r.rangeEnd - score, r.rangeEnd - r.rangeStart;
    if a < b {
      assert a / b == 0;
      assert 0.0 <= a as real / b as real < 1.0;
    } else {
      assert a as real / b as real == 1.0;
    }
  }

  function Scan(ranges: seq<Range>, score: int): int {
    if ranges == [] then 0
    else if Contains(ranges[0], score) then PlaceInRange(ranges[0], score)
    else ranges[0].count + Scan(ranges[1..], score)
  }

  /** The loop over the sorted ranges. */
  method ScanRanges(sorted: seq<Range>, memberScore: int) returns (rank: int)
    ensures rank == Scan(sorted, memberScore)
  {
    rank := 0;
    for k := 0 to |sorted|
      invariant rank + Scan(sorted[k..], memberScore) == Scan(sorted, memberScore)
    {
      var v := sorted[k];
      assert sorted[k..][1..] == sorted[k + 1..];
      if memberScore >= v.rangeStart && memberScore < v.rangeEnd {
        return rank + (v.rangeEnd - memberScore) / (v.rangeEnd - v.rangeStart);
      } else {
        rank := rank + v.count;
      }
    }
  }

  /** Stands for `slices.SortFunc`, which promises no order among ranges with one start. */
  method SortRanges(ranges: seq<Range>) returns (sorted: seq<Range>)
    ensures SortedForm(sorted, ranges)
  {
    SortSorts(ranges);
    sorted := Sort(ranges);
  }

  /**
    The rank of a member: exact below `accurateRankSize`; -1 when the ranges cannot be read (None)
    or there are none; else the scan of some descending arrangement of the ranges, in whatever
    order the map gave them, and of every such arrangement if no tie shows.
   */
  method Rank(concreteRank: int, memberScore: int, accurateRankSize: int, ranges: Option<seq<Range>>) returns (rank: int)
    ensures 0 <= concreteRank < accurateRankSize ==> rank == concreteRank
    ensures !(0 <= concreteRank < accurateRankSize) && (ranges.None? || ranges.value == []) ==> rank == -1
    ensures !(0 <= concreteRank < accurateRankSize) && ranges.Some? && ranges.value != [] ==>
      && (exists p | SortedForm(p, ranges.value) :: rank == Scan(p, memberScore))
      && (TieFree(ranges.value, memberScore) ==> forall p | SortedForm(p, ranges.value) :: rank == Scan(p, memberScore))
  {
    if concreteRank >= 0 && concreteRank < accurateRankSize {
      return concreteRank;
    }
    if ranges.None? || |ranges.value| == 0 {
      return -1;
    }
    var sorted := SortRanges(ranges.value);
    rank := ScanRanges(sorted, memberScore);
    ScanIsOrderIndependentExactly(ranges.value, memberScore);
  }

  // ---------------------------------------------------------------- rearrangements

  ghost predicate Descending(s: seq<Range>) {
    forall i, j | 0 <= i < j < |s| :: s[i].rangeStart >= s[j].rangeStart
  }

  ghost predicate SortedForm(p: seq<Range>, ranges: seq<Range>) {
    Descending(p) && multiset(p) == multiset(ranges)
  }

  /**
    A tie at this score: two ranges with one start, where the one without the score counts
    somebody. It is hidden when a range with a higher start holds the score as well.
   */
  ghost predicate VisibleTie(ranges: seq<Range>, score: int, a: Range, b: Range) {
    && a in ranges && b in ranges
    && a.rangeStart == b.rangeStart && Contains(b, score) && !Contains(a, score) && a.count != 0
    && forall c | c in ranges && c.rangeStart > b.rangeStart :: !Contains(c, score)
  }

  ghost predicate TieFree(ranges: seq<Range>, score: int) {
    forall a, b | a in ranges && b in ranges :: !VisibleTie(ranges, score, a, b)
  }

  lemma RemoveAt(q: seq<Range>, k: nat) returns (rest: seq<Range>)
    requires Descending(q) && k < |q|
    ensures rest == q[..k] + q[k + 1..] && Descending(rest)
    ensures multiset(rest) == multiset(q) - multiset{q[k]}
  {
    rest := q[..k] + q[k + 1..];
    assert q == q[..k] + [q[k]] + q[k + 1..];
    forall i, j | 0 <= i < j < |rest| ensures rest[i].rangeStart >= rest[j].rangeStart {
      var i', j' := if i < k then i else i + 1, if j < k then j else j + 1;
      assert rest[i] == q[i'] && rest[j] == q[j'];
    }
  }

  /** A range that does not hold the score adds its count, if the scan gets to it. */
  lemma {:induction false} ScanWithout(q: seq<Range>, k: nat, score: int)
    requires k < |q| && !Contains(q[k], score)
    ensures (forall i | 0 <= i < k :: !Contains(q[i], score)) ==> Scan(q, score) == q[k].count + Scan(q[..k] + q[k + 1..], score)
    ensures (exists i | 0 <= i < k :: Contains(q[i], score)) ==> Scan(q, score) == Scan(q[..k] + q[k + 1..], score)
    decreases k
  {
    var rest := q[..k] + q[k + 1..];
    if k == 0 {
      assert rest == q[1..];
    } else {
      assert rest[0] == q[0] && rest[1..] == q[1..][..k - 1] + q[1..][k..];
      if !Contains(q[0], score) {
        ScanWithout(q[1..], k - 1, score);
        if i :| 0 <= i < k && Contains(q[i], score) {
          assert q[1..][i - 1] == q[i];
        }
      }
    }
  }

  /** The first range that holds the score. */
  lemma {:induction false} FirstContaining(q: seq<Range>, score: int) returns (c: nat)
    ensures c <= |q| && forall i | 0 <= i < c :: !Contains(q[i], score)
    ensures c < |q| ==> Contains(q[c], score)
  {
    if q == [] || Contains(q[0], score) {
      c := 0;
    } else {
      var d := FirstContaining(q[1..], score);
      c := d + 1;
      forall i | 0 <= i < c ensures !Contains(q[i], score) {
        if i > 0 {
          assert q[i] == q[1..][i - 1];
        }
      }
    }
  }

  lemma {:induction false} ScanOfUncounted(q: seq<Range>, c: nat, score: int)
    requires c < |q| && Contains(q[c], score)
    requires forall i | 0 <= i < c :: !Contains(q[i], score) && q[i].count == 0
    ensures Scan(q, score) == PlaceInRange(q[c], score)
    decreases c
  {
    if c > 0 {
      ScanOfUncounted(q[1..], c - 1, score);
    }
  }

  lemma SameElements(p: seq<Range>, q: seq<Range>)
    requires multiset(p) == multiset(q)
    ensures forall r :: r in p <==> r in q
  {
    assert forall r :: r in p <==> r in multiset(p);
    assert forall r :: r in q <==> r in multiset(q);
  }

  /** The head of one arrangement holds the score: the other one finds the same estimate, uncounted. */
  lemma ScanFromHolder(p: seq<Range>, q: seq<Range>, score: int)
    requires SortedForm(q, p) && Descending(p) && TieFree(p, score)
    requires p != [] && Contains(p[0], score)
    ensures Scan(q, score) == PlaceInRange(p[0], score)
  {
    SameElements(p, q);
    var c := FirstContaining(q, score);
    assert p[0] in q;
    var k :| 0 <= k < |q| && q[k] == p[0];
    assert c <= k;
    assert q[c] in p;
    assert q[c].rangeStart == p[0].rangeStart;
    forall i | 0 <= i < c ensures q[i].count == 0 {
      assert q[i] in p && q[i].rangeStart == p[0].rangeStart;
      assert !VisibleTie(p, score, q[i], q[c]);
    }
    ScanOfUncounted(q, c, score);
    PlaceIsZeroOrOne(q[c], score);
    PlaceIsZeroOrOne(p[0], score);
  }

  lemma TieFreeBelow(p: seq<Range>, score: int)
    requires p != [] && !Contains(p[0], score) && TieFree(p, score)
    ensures TieFree(p[1..], score)
  {
    forall a, b | a in p[1..] && b in p[1..] ensures !VisibleTie(p[1..], score, a, b) {
      assert !VisibleTie(p, score, a, b);
    }
  }

  lemma TailOf(p: seq<Range>)
    requires p != []
    ensures multiset(p[1..]) == multiset(p) - multiset{p[0]}
  {
    assert p == [p[0]] + p[1..];
  }

  lemma HeadDoesNotMatter(p: seq<Range>, q: seq<Range>, score: int) returns (rest: seq<Range>)
    requires SortedForm(q, p) && Descending(p) && TieFree(p, score)
    requires p != [] && !Contains(p[0], score)
    ensures SortedForm(rest, p[1..])
    ensures Scan(q, score) == p[0].count + Scan(rest, score)
  {
    SameElements(p, q);
    assert p[0] in q;
    var k :| 0 <= k < |q| && q[k] == p[0];
    rest := RemoveAt(q, k);
    TailOf(p);
    ScanWithout(q, k, score);
    if i :| 0 <= i < k && Contains(q[i], score) {
      HolderBeforeHead(p, q, i, k, score);
    }
  }

  lemma HolderBeforeHead(p: seq<Range>, q: seq<Range>, i: nat, k: nat, score: int)
    requires Descending(q) && Descending(p) && TieFree(p, score) && forall r | r in q :: r in p
    requires p != [] && !Contains(p[0], score) && i < k < |q| && q[k] == p[0] && Contains(q[i], score)
    ensures p[0].count == 0
  {
    assert q[i] in p;
    assert q[i].rangeStart == p[0].rangeStart;
    assert !VisibleTie(p, score, p[0], q[i]);
  }

  lemma {:induction false} SameScan(p: seq<Range>, q: seq<Range>, score: int)
    requires Descending(p) && SortedForm(q, p) && TieFree(p, score)
    ensures Scan(p, score) == Scan(q, score)
    decreases |p|
  {
    if p == [] {
      assert |multiset(q)| == 0;
    } else if Contains(p[0], score) {
      ScanFromHolder(p, q, score);
    } else {
      var rest := HeadDoesNotMatter(p, q, score);
      TieFreeBelow(p, score);
      SameScan(p[1..], rest, score);
    }
  }

  // ---------------------------------------------------------------- a tie that shows

  function Insert(s: seq<Range>, r: Range): seq<Range> {
    if s == [] || s[0].rangeStart <= r.rangeStart then [r] + s else [s[0]] + Insert(s[1..], r)
  }

  function Sort(s: seq<Range>): seq<Range> {
    if s == [] then [] else Insert(Sort(s[1..]), s[0])
  }

  lemma {:induction false} InsertElements(s: seq<Range>, r: Range)
    ensures multiset(Insert(s, r)) == multiset(s) + multiset{r}
    ensures forall x :: x in Insert(s, r) <==> x == r || x in s
  {
    if s != [] && s[0].rangeStart > r.rangeStart {
      InsertElements(s[1..], r);
      assert s == [s[0]] + s[1..];
    }
  }

  lemma {:induction false} InsertSorts(s: seq<Range>, r: Range)
    requires Descending(s)
    ensures Descending(Insert(s, r))
  {
    if s != [] && s[0].rangeStart > r.rangeStart {
      InsertSorts(s[1..], r);
      InsertElements(s[1..], r);
      var t := Insert(s[1..], r);
      forall i | 0 <= i < |t| ensures s[0].rangeStart >= t[i].rangeStart {
        assert t[i] in t;
      }
    }
  }

  lemma {:induction false} SortSorts(s: seq<Range>)
    ensures SortedForm(Sort(s), s)
  {
    if s != [] {
      SortSorts(s[1..]);
      InsertSorts(Sort(s[1..]), s[0]);
      InsertElements(Sort(s[1..]), s[0]);
      assert s == [s[0]] + s[1..];
    }
  }

  /** A descending list splits into the ranges that start above `start` and the others. */
  lemma {:induction false} SplitAt(s: seq<Range>, start: int) returns (n: nat)
    requires Descending(s)
    ensures n <= |s|
    ensures forall i | 0 <= i < n :: s[i].rangeStart > start
    ensures forall i | n <= i < |s| :: s[i].rangeStart <= start
  {
    if s == [] || s[0].rangeStart <= start {
      n := 0;
    } else {
      var m := SplitAt(s[1..], start);
      n := m + 1;
      assert forall i | 1 <= i < |s| :: s[i] == s[1..][i - 1];
    }
  }

  lemma {:induction false} ScanPast(high: seq<Range>, rest: seq<Range>, score: int)
    requires forall i | 0 <= i < |high| :: !Contains(high[i], score)
    ensures Scan(high + rest, score) == Scan(high, score) + Scan(rest, score)
  {
    if high == [] {
      assert high + rest == rest;
    } else {
      assert (high + rest)[1..] == high[1..] + rest;
      ScanPast(high[1..], rest, score);
    }
  }

  lemma RemoveOne(s: seq<Range>, r: Range) returns (rest: seq<Range>)
    requires r in s
    ensures multiset(s) == multiset(rest) + multiset{r}
    ensures forall x | x in s && x != r :: x in rest
  {
    var i :| 0 <= i < |s| && s[i] == r;
    rest := s[..i] + s[i + 1..];
    assert s == s[..i] + [s[i]] + s[i + 1..];
  }

  lemma WithoutPair(ranges: seq<Range>, a: Range, b: Range) returns (others: seq<Range>)
    requires a in ranges && b in ranges && a != b
    ensures multiset(ranges) == multiset(others) + multiset{a, b}
  {
    var t := RemoveOne(ranges, a);
    others := RemoveOne(t, b);
  }

  lemma PairInOrder(high: seq<Range>, x: Range, y: Range, low: seq<Range>, others: seq<Range>, ranges: seq<Range>)
    requires Descending(high) && Descending(low) && x.rangeStart == y.rangeStart
    requires forall i | 0 <= i < |high| :: high[i].rangeStart > x.rangeStart
    requires forall i | 0 <= i < |low| :: low[i].rangeStart <= x.rangeStart
    requires multiset(high) + multiset(low) == multiset(others)
    requires multiset(ranges) == multiset(others) + multiset{x, y}
    ensures SortedForm(high + ([x] + ([y] + low)), ranges)
  {
  }

  lemma ScanOfPair(high: seq<Range>, a: Range, b: Range, low: seq<Range>, score: int)
    requires forall i | 0 <= i < |high| :: !Contains(high[i], score)
    requires Contains(b, score) && !Contains(a, score)
    ensures Scan(high + ([a] + ([b] + low)), score) == Scan(high, score) + a.count + PlaceInRange(b, score)
    ensures Scan(high + ([b] + ([a] + low)), score) == Scan(high, score) + PlaceInRange(b, score)
  {
    ScanPast(high, [a] + ([b] + low), score);
    ScanPast(high, [b] + ([a] + low), score);
    assert ([a] + ([b] + low))[1..] == [b] + low;
  }

  /** The ranges other than the pair, split around the pair's start. */
  lemma Surroundings(ranges: seq<Range>, a: Range, b: Range) returns (high: seq<Range>, low: seq<Range>, others: seq<Range>)
    requires a in ranges && b in ranges && a != b
    ensures Descending(high) && Descending(low)
    ensures forall i | 0 <= i < |high| :: high[i].rangeStart > a.rangeStart && high[i] in ranges
    ensures forall i | 0 <= i < |low| :: low[i].rangeStart <= a.rangeStart
    ensures multiset(high) + multiset(low) == multiset(others)
    ensures multiset(ranges) == multiset(others) + multiset{a, b}
  {
    others := WithoutPair(ranges, a, b);
    var s := Sort(others);
    SortSorts(others);
    var n := SplitAt(s, a.rangeStart);
    high, low := s[..n], s[n..];
    CutInTwo(s, n);
    PartOf(high, ranges, multiset(low) + multiset{a, b});
  }

  lemma CutInTwo(s: seq<Range>, n: nat)
    requires Descending(s) && n <= |s|
    ensures Descending(s[..n]) && Descending(s[n..]) && multiset(s[..n]) + multiset(s[n..]) == multiset(s)
  {
    assert s == s[..n] + s[n..];
  }

  lemma PartOf(part: seq<Range>, whole: seq<Range>, others: multiset<Range>)
    requires multiset(whole) == multiset(part) + others
    ensures forall i | 0 <= i < |part| :: part[i] in whole
  {
    forall i | 0 <= i < |part| ensures part[i] in whole {
      assert part[i] in multiset(part);
      assert part[i] in multiset(whole);
    }
  }

  /** A visible tie makes two arrangements of the same ranges disagree. */
  lemma TieShows(ranges: seq<Range>, score: int, a: Range, b: Range) returns (p: seq<Range>, q: seq<Range>)
    requires VisibleTie(ranges, score, a, b)
    ensures SortedForm(p, ranges) && SortedForm(q, ranges)
    ensures Scan(p, score) != Scan(q, score)
  {
    var high, low, others := Surroundings(ranges, a, b);
    p := high + ([a] + ([b] + low));
    q := high + ([b] + ([a] + low));
    PairInOrder(high, a, b, low, others, ranges);
    PairInOrder(high, b, a, low, others, ranges);
    ScanOfPair(high, a, b, low, score);
  }

  /**
    The scan does not depend on how the hash map enumerates the ranges exactly when no tie is
    visible at the score.
   */
  lemma ScanIsOrderIndependentExactly(ranges: seq<Range>, score: int)
    ensures (forall p, q | SortedForm(p, ranges) && SortedForm(q, ranges) :: Scan(p, score) == Scan(q, score))
            <==> TieFree(ranges, score)
  {
    if TieFree(ranges, score) {
      forall p, q | SortedForm(p, ranges) && SortedForm(q, ranges)
        ensures Scan(p, score) == Scan(q, score)
      {
        SameElements(p, ranges);
        assert TieFree(p, score) by {
          forall a, b | a in p && b in p ensures !VisibleTie(p, score, a, b) {
            assert !VisibleTie(ranges, score, a, b);
          }
        }
        SameScan(p, q, score);
      }
    } else {
      var a, b :| a in ranges && b in ranges && VisibleTie(ranges, score, a, b);
      var p, q := TieShows(ranges, score, a, b);
    }
  }

  // ---------------------------------------------------------------- disjoint ranges

  /** The documented use: no two ranges overlap, and each counts somebody. */
  ghost predicate Disjoint(ranges: seq<Range>) {
    && (forall i | 0 <= i < |ranges| :: ranges[i].rangeStart < ranges[i].rangeEnd && ranges[i].count > 0)
    && (forall i, j | 0 <= i < j < |ranges| ::
          ranges[i].rangeEnd <= ranges[j].rangeStart || ranges[j].rangeEnd <= ranges[i].rangeStart)
  }

  function Total(ranges: seq<Range>): int {
    if ranges == [] then 0 else ranges[0].count + Total(ranges[1..])
  }

  lemma {:induction false} TotalGrows(s: seq<Range>, i: nat, j: nat)
    requires i <= j <= |s| && forall k | 0 <= k < |s| :: s[k].count > 0
    ensures Total(s[..i]) <= Total(s[..j])
    ensures i < j ==> Total(s[..i]) + s[i].count <= Total(s[..j])
    decreases j
  {
    if i > 0 {
      TotalGrows(s[1..], i - 1, j - 1);
      assert s[..i][1..] == s[1..][..i - 1] && s[..j][1..] == s[1..][..j - 1];
    } else if j > 0 {
      TotalGrows(s[1..], 0, j - 1);
      assert s[..j][1..] == s[1..][..j - 1];
    }
  }

  /** Inside range k of a descending disjoint list, the scan counts everybody in the higher ranges. */
  lemma {:induction false} ScanInside(s: seq<Range>, k: nat, score: int)
    requires Descending(s) && Disjoint(s) && k < |s| && Contains(s[k], score)
    ensures Scan(s, score) == Total(s[..k]) + PlaceInRange(s[k], score)
    decreases k
  {
    if k > 0 {
      assert !Contains(s[0], score);
      ScanInside(s[1..], k - 1, score);
      assert s[..k][1..] == s[1..][..k - 1];
    }
  }

  /**
    Within disjoint ranges the approximate rank lies between the number of members in higher
    ranges and that number plus the members of the own range.
   */
  lemma ScanIsWithinOwnRange(s: seq<Range>, k: nat, score: int)
    requires Descending(s) && Disjoint(s) && k < |s| && Contains(s[k], score)
    ensures Total(s[..k]) <= Scan(s, score) <= Total(s[..k]) + s[k].count
    ensures forall i | 0 <= i < |s| :: i < k <==> s[i].rangeStart > s[k].rangeStart
  {
    ScanInside(s, k, score);
    PlaceIsZeroOrOne(s[k], score);
  }

  /** A higher score never gets a worse approximate rank, among scores that some range holds. */
  lemma ScanIsAntitone(s: seq<Range>, j: nat, low: int, k: nat, high: int)
    requires Descending(s) && Disjoint(s) && j < |s| && k < |s|
    requires Contains(s[j], low) && Contains(s[k], high) && low < high
    ensures Scan(s, low) >= Scan(s, high)
  {
    ScanInside(s, j, low);
    ScanInside(s, k, high);
    PlaceIsZeroOrOne(s[j], low);
    PlaceIsZeroOrOne(s[k], high);
    TotalGrows(s, k, j);
  }

  lemma DisjointRangesAreTieFree(ranges: seq<Range>, score: int)
    requires Disjoint(ranges)
    ensures TieFree(ranges, score)
  {
  }

  /** The start of a range belongs to it and its end does not: the rank of a score in range k, on its first score and after. */
  lemma ScanExactly(s: seq<Range>, k: nat, score: int)
    requires Descending(s) && Disjoint(s) && k < |s| && s[k].rangeStart <= score < s[k].rangeEnd
    ensures Scan(s, score) == Total(s[..k]) + (if score == s[k].rangeStart then 1 else 0)
  {
    ScanInside(s, k, score);
    PlaceIsZeroOrOne(s[k], score);
  }

  /** A score that lies in no range has everybody before it. */
  lemma {:induction false} ScanOutside(s: seq<Range>, score: int)
    requires forall k | 0 <= k < |s| :: score < s[k].rangeStart || score >= s[k].rangeEnd
    ensures Scan(s, score) == Total(s)
  {
    if s != [] {
      assert score < s[0].rangeStart || score >= s[0].rangeEnd;
      ScanOutside(s[1..], score);
    }
  }

  lemma TotalSums(r: Range, s: seq<Range>)
    ensures Total([]) == 0 && Total([r] + s) == r.count + Total(s)
  {
    assert ([r] + s)[1..] == s;
  }
}

/** Distribution statistics shared by the four tables: the gaps between
    consecutive occupied positions (`getGaps`, the same loop in every table) and
    the three largest bucket sizes (`getTresMaioresListas` of the chaining
    table). Positions are given as an occupancy vector: `occ[i]` says whether
    bucket or slot `i` holds a record. */
module Statistics {
  import opened HashFunctions
  import opened HashTable

  /** The occupied positions, in increasing order. */
  function Positions(occ: seq<bool>): (p: seq<int>)
    ensures forall j :: 0 <= j < |p| ==> 0 <= p[j] < |occ|
    decreases |occ|
  {
    if occ == [] then []
    else Positions(occ[..|occ| - 1]) + (if occ[|occ| - 1] then [|occ| - 1] else [])
  }

  /** The gap between each two consecutive positions: the number of free
      positions strictly between them. */
  function Between(p: seq<int>): (g: seq<int>)
    ensures |g| == if |p| < 2 then 0 else |p| - 1
    decreases |p|
  {
    if |p| < 2 then [] else Between(p[..|p| - 1]) + [p[|p| - 1] - p[|p| - 2] - 1]
  }

  function GapList(occ: seq<bool>): seq<int>
  {
    Between(Positions(occ))
  }

  function Sum(s: seq<int>): int
    decreases |s|
  {
    if s == [] then 0 else Sum(s[..|s| - 1]) + s[|s| - 1]
  }

  function Min(s: seq<int>): int
    requires s != []
    decreases |s|
  {
    if |s| == 1 then s[0]
    else if s[|s| - 1] < Min(s[..|s| - 1]) then s[|s| - 1]
    else Min(s[..|s| - 1])
  }

  function Max(s: seq<int>): int
    requires s != []
    decreases |s|
  {
    if |s| == 1 then s[0]
    else if s[|s| - 1] > Max(s[..|s| - 1]) then s[|s| - 1]
    else Max(s[..|s| - 1])
  }

  /** [smallest gap, largest gap, mean gap rounded down]; the interface default
      when there is no gap, i.e. fewer than two occupied positions. */
  function GapSummary(occ: seq<bool>): seq<int>
  {
    var g := GapList(occ);
    if g == [] then DefaultGaps else [Min(g), Max(g), Sum(g) / |g|]
  }

  /** `getGaps`: one left-to-right scan with running smallest, largest, sum and
      count (the smallest starts at Integer.MAX_VALUE), then the summary. */
  method Gaps(occ: seq<bool>) returns (g: seq<int>)
    requires |occ| <= MaxInt
    ensures g == GapSummary(occ)
  {
    var smallest, largest, total, count := Scan(occ);
    if count == 0 {
      g := DefaultGaps;
    } else {
      g := [smallest, largest, total / count];
    }
  }

  /** The scan loop of `getGaps`. */
  method Scan(occ: seq<bool>) returns (smallest: int, largest: int, total: int, count: int)
    requires |occ| <= MaxInt
    ensures Running(GapList(occ), smallest, largest, total, count)
  {
    smallest, largest, total, count := MaxInt, 0, 0, 0;
    var last := -1;
    ghost var gaps: seq<int> := [];
    for i := 0 to |occ|
      invariant ScanInv(occ[..i], gaps, last, smallest, largest, total, count)
    {
      ScanStep(occ, i);
      ghost var gaps0, last0, smallest0, largest0, total0, count0 := gaps, last, smallest, largest, total, count;
      if occ[i] {
        if last != -1 {
          var gap := i - last - 1;
          smallest := if gap < smallest then gap else smallest;
          largest := if gap > largest then gap else largest;
          total := total + gap;
          count := count + 1;
          gaps := gaps + [gap];
        }
        last := i;
      }
      ScanAdvance(occ, i, gaps0, last0, smallest0, largest0, total0, count0);
    }
    assert occ[..|occ|] == occ;
  }

  /** The loop invariant of the scan over the positions seen so far. */
  predicate ScanInv(seen: seq<bool>, gaps: seq<int>, last: int, smallest: int, largest: int, total: int, count: int)
  {
    gaps == GapList(seen) && last == LastPosition(seen) && Running(gaps, smallest, largest, total, count)
  }

  /** One iteration of the scan keeps its invariant. */
  lemma ScanAdvance(occ: seq<bool>, i: int, gaps: seq<int>, last: int, smallest: int, largest: int, total: int, count: int)
    requires 0 <= i < |occ| <= MaxInt
    requires ScanInv(occ[..i], gaps, last, smallest, largest, total, count)
    ensures var gap := i - last - 1;
            if occ[i] && last != -1 then
              ScanInv(occ[..i + 1], gaps + [gap], i, if gap < smallest then gap else smallest,
                      if gap > largest then gap else largest, total + gap, count + 1)
            else if occ[i] then
              ScanInv(occ[..i + 1], gaps, i, smallest, largest, total, count)
            else
              ScanInv(occ[..i + 1], gaps, last, smallest, largest, total, count)
  {
    ScanStep(occ, i);
    if occ[i] && last != -1 {
      RunningStep(gaps, i - last - 1, smallest, largest, total, count);
    }
  }

  /** The scan's running values describe the gaps seen so far. */
  predicate Running(gaps: seq<int>, smallest: int, largest: int, total: int, count: int)
  {
    count == |gaps| && total == Sum(gaps) &&
    (count == 0 ==> smallest == MaxInt && largest == 0) &&
    (count > 0 ==> smallest == Min(gaps) && largest == Max(gaps))
  }

  lemma RunningStep(gaps: seq<int>, gap: int, smallest: int, largest: int, total: int, count: int)
    requires Running(gaps, smallest, largest, total, count)
    requires 0 <= gap < MaxInt
    ensures Running(gaps + [gap], if gap < smallest then gap else smallest,
                    if gap > largest then gap else largest, total + gap, count + 1)
  {
    StatsSnoc(gaps, gap);
    if gaps == [] {
      assert gaps + [gap] == [gap];
    }
  }

  /** The last occupied position, or -1 when there is none. */
  function LastPosition(occ: seq<bool>): int
  {
    var p := Positions(occ);
    if p == [] then -1 else p[|p| - 1]
  }

  /** What one more position adds to the gaps and the last occupied
      position. */
  lemma ScanStep(occ: seq<bool>, i: int)
    requires 0 <= i < |occ|
    ensures -1 <= LastPosition(occ[..i]) < i
    ensures LastPosition(occ[..i + 1]) == if occ[i] then i else LastPosition(occ[..i])
    ensures GapList(occ[..i + 1]) ==
              if occ[i] && LastPosition(occ[..i]) != -1
              then GapList(occ[..i]) + [i - LastPosition(occ[..i]) - 1]
              else GapList(occ[..i])
  {
    var pos := Positions(occ[..i]);
    PositionsStep(occ, i);
    if pos != [] {
      assert pos[|pos| - 1] < i;
    }
    if occ[i] {
      var pos' := pos + [i];
      assert pos'[|pos'| - 1] == i;
      if pos != [] {
        BetweenSnoc(pos, i);
      } else {
        assert Between(pos') == Between([i]) == [];
      }
    } else {
      assert pos + [] == pos;
    }
  }

  lemma PositionsStep(occ: seq<bool>, i: int)
    requires 0 <= i < |occ|
    ensures Positions(occ[..i + 1]) == Positions(occ[..i]) + (if occ[i] then [i] else [])
  {
    assert occ[..i + 1][..i] == occ[..i];
  }

  /** Sum, smallest and largest after appending one value. */
  lemma StatsSnoc(s: seq<int>, x: int)
    ensures Sum(s + [x]) == Sum(s) + x
    ensures s != [] ==> Min(s + [x]) == (if x < Min(s) then x else Min(s))
    ensures s != [] ==> Max(s + [x]) == (if x > Max(s) then x else Max(s))
  {
    assert (s + [x])[..|s|] == s;
  }

  lemma {:induction false} BetweenSnoc(p: seq<int>, x: int)
    requires p != []
    ensures Between(p + [x]) == Between(p) + [x - p[|p| - 1] - 1]
  {
    var q := p + [x];
    assert |q| >= 2;
    assert q[..|q| - 1] == p;
    assert q[|q| - 1] == x && q[|q| - 2] == p[|p| - 1];
    assert Between(q) == Between(q[..|q| - 1]) + [q[|q| - 1] - q[|q| - 2] - 1];
  }

  predicate Increasing(p: seq<int>)
  {
    forall i, j :: 0 <= i < j < |p| ==> p[i] < p[j]
  }

  lemma {:induction false} PositionsIncreasing(occ: seq<bool>)
    ensures Increasing(Positions(occ))
    decreases |occ|
  {
    if occ != [] {
      PositionsIncreasing(occ[..|occ| - 1]);
    }
  }

  lemma {:induction false} GapsNonNegative(p: seq<int>)
    requires Increasing(p)
    ensures forall j :: 0 <= j < |Between(p)| ==> Between(p)[j] >= 0
    decreases |p|
  {
    if |p| >= 2 {
      GapsNonNegative(p[..|p| - 1]);
    }
  }

  lemma SumBetweenMinMax(s: seq<int>)
    requires s != []
    ensures |s| * Min(s) <= Sum(s) <= |s| * Max(s)
    ensures Min(s) <= Max(s)
  {
    SumAboveMin(s);
    SumBelowMax(s);
    MinBelowMax(s);
  }

  lemma {:induction false} SumAboveMin(s: seq<int>)
    requires s != []
    ensures |s| * Min(s) <= Sum(s)
    decreases |s|
  {
    if |s| > 1 {
      var p, lo := s[..|s| - 1], Min(s);
      SumAboveMin(p);
      MulLeft(|p|, lo, Min(p));
      MulSucc(|p|, lo);
    }
  }

  lemma {:induction false} SumBelowMax(s: seq<int>)
    requires s != []
    ensures Sum(s) <= |s| * Max(s)
    decreases |s|
  {
    if |s| > 1 {
      var p, hi := s[..|s| - 1], Max(s);
      SumBelowMax(p);
      MulLeft(|p|, Max(p), hi);
      MulSucc(|p|, hi);
    }
  }

  lemma {:induction false} MinBelowMax(s: seq<int>)
    requires s != []
    ensures Min(s) <= Max(s)
    decreases |s|
  {
    if |s| > 1 {
      MinBelowMax(s[..|s| - 1]);
    }
  }

  lemma MulLeft(n: nat, a: int, b: int)
    requires a <= b
    ensures n * a <= n * b
  {
  }

  lemma MulSucc(n: nat, a: int)
    ensures (n + 1) * a == n * a + a
  {
  }

  /** Rounding down keeps the mean between the smallest and largest value. */
  lemma MeanBetween(total: int, n: int, lo: int, hi: int)
    requires n > 0 && n * lo <= total <= n * hi
    ensures lo <= total / n <= hi
  {
    var q, r := total / n, total % n;
    assert total == n * q + r && 0 <= r < n;
    assert n * (q + 1) == n * q + n;
    assert n * (hi + 1) == n * hi + n;
    MulCancel(n, lo, q + 1);
    MulCancel(n, q, hi + 1);
  }

  lemma MulCancel(n: int, a: int, b: int)
    requires n > 0 && n * a < n * b
    ensures a < b
  {
  }

  /** Every gap summary has three entries; the smallest gap is not negative and
      the mean lies between the smallest and the largest; with fewer than two
      occupied positions it is the interface default [0, 0, 0]. */
  lemma GapSummaryBounds(occ: seq<bool>)
    ensures |GapSummary(occ)| == 3
    ensures 0 <= GapSummary(occ)[0] <= GapSummary(occ)[2] <= GapSummary(occ)[1]
    ensures |Positions(occ)| < 2 ==> GapSummary(occ) == DefaultGaps
  {
    var g := GapList(occ);
    if g != [] {
      PositionsIncreasing(occ);
      GapsNonNegative(Positions(occ));
      SumBetweenMinMax(g);
      MeanBetween(Sum(g), |g|, Min(g), Max(g));
      MinIsElement(g);
    }
  }

  lemma {:induction false} MinIsElement(s: seq<int>)
    requires s != []
    ensures Min(s) in s
    decreases |s|
  {
    if |s| > 1 {
      MinIsElement(s[..|s| - 1]);
    }
  }

  /** Occupied positions 2, 5 and 9 of ten give gaps 2 and 3: smallest 2,
      largest 3, mean 2.5 rounded down to 2. */
  lemma GapExample(occ: seq<bool>)
    requires occ == [false, false, true, false, false, true, false, false, false, true]
    ensures GapSummary(occ) == [2, 3, 2]
  {
    ExamplePositions(occ);
    BetweenSnoc([2], 5);
    BetweenSnoc([2, 5], 9);
    assert [2] + [5] == [2, 5] && [2, 5] + [9] == [2, 5, 9];
    assert GapList(occ) == [2, 3];
    assert [2, 3][..1] == [2] && [2][..0] == [];
    assert Min([2, 3]) == 2 && Max([2, 3]) == 3 && Sum([2, 3]) == 5;
  }

  lemma ExamplePositions(occ: seq<bool>)
    requires occ == [false, false, true, false, false, true, false, false, false, true]
    ensures Positions(occ) == [2, 5, 9]
  {
    ExamplePrefix(occ);
    PositionsStep(occ, 5); PositionsStep(occ, 6); PositionsStep(occ, 7);
    PositionsStep(occ, 8); PositionsStep(occ, 9);
    assert occ[..10] == occ;
  }

  lemma ExamplePrefix(occ: seq<bool>)
    requires occ == [false, false, true, false, false, true, false, false, false, true]
    ensures Positions(occ[..5]) == [2]
  {
    assert occ[..0] == [];
    PositionsStep(occ, 0); PositionsStep(occ, 1); PositionsStep(occ, 2);
    PositionsStep(occ, 3); PositionsStep(occ, 4);
  }

  // ---- The three largest bucket sizes ----

  predicate NonIncreasing(s: seq<int>)
  {
    forall i, j :: 0 <= i < j < |s| ==> s[i] >= s[j]
  }

  /** Insertion into a non-increasing sequence: the priority queue in reverse
      order, whose `poll` yields the head. */
  function InsertDesc(s: seq<int>, x: int): seq<int>
    decreases |s|
  {
    if s == [] then [x]
    else if x >= s[0] then [x] + s
    else [s[0]] + InsertDesc(s[1..], x)
  }

  /** All values in the order a max-priority queue returns them. */
  function SortDesc(xs: seq<int>): seq<int>
    decreases |xs|
  {
    if xs == [] then [] else InsertDesc(SortDesc(xs[..|xs| - 1]), xs[|xs| - 1])
  }

  function Take(s: seq<int>, n: nat): seq<int>
  {
    if |s| <= n then s else s[..n]
  }

  /** The first three values polled from the queue. */
  function TopThree(xs: seq<int>): seq<int>
  {
    Take(SortDesc(xs), 3)
  }

  lemma {:induction false} InsertDescElements(s: seq<int>, x: int)
    ensures multiset(InsertDesc(s, x)) == multiset(s) + multiset{x}
    decreases |s|
  {
    if s != [] && x < s[0] {
      InsertDescElements(s[1..], x);
      assert s == [s[0]] + s[1..];
    }
  }

  lemma {:induction false} InsertDescSpec(s: seq<int>, x: int)
    requires NonIncreasing(s)
    ensures NonIncreasing(InsertDesc(s, x))
    ensures multiset(InsertDesc(s, x)) == multiset(s) + multiset{x}
    decreases |s|
  {
    InsertDescElements(s, x);
    if s != [] && x < s[0] {
      var t := InsertDesc(s[1..], x);
      InsertDescSpec(s[1..], x);
      InsertDescBounded(s[1..], x, s[0]);
      assert InsertDesc(s, x) == [s[0]] + t;
    }
  }

  /** Inserting a value no larger than a bound into values no larger than it
      keeps every value within the bound. */
  lemma {:induction false} InsertDescBounded(s: seq<int>, x: int, b: int)
    requires forall j :: 0 <= j < |s| ==> s[j] <= b
    requires x <= b
    ensures forall j :: 0 <= j < |InsertDesc(s, x)| ==> InsertDesc(s, x)[j] <= b
    decreases |s|
  {
    if s != [] && x < s[0] {
      InsertDescBounded(s[1..], x, b);
    }
  }

  lemma SortDescSnoc(xs: seq<int>, x: int)
    ensures SortDesc(xs + [x]) == InsertDesc(SortDesc(xs), x)
  {
    assert (xs + [x])[..|xs|] == xs;
  }

  lemma {:induction false} SortDescSpec(xs: seq<int>)
    ensures NonIncreasing(SortDesc(xs))
    ensures multiset(SortDesc(xs)) == multiset(xs)
    decreases |xs|
  {
    if xs != [] {
      var p := xs[..|xs| - 1];
      SortDescSpec(p);
      InsertDescSpec(SortDesc(p), xs[|xs| - 1]);
      assert xs == p + [xs[|xs| - 1]];
    }
  }

  /** The top three are at most three values taken from the input, in
      non-increasing order, and none of the values left out exceeds any of
      them. */
  lemma TopThreeSpec(xs: seq<int>)
    ensures |TopThree(xs)| == if |xs| < 3 then |xs| else 3
    ensures NonIncreasing(TopThree(xs))
    ensures multiset(TopThree(xs)) <= multiset(xs)
    ensures forall y, j :: y in multiset(xs) - multiset(TopThree(xs)) && 0 <= j < |TopThree(xs)| ==> y <= TopThree(xs)[j]
  {
    var sorted := SortDesc(xs);
    SortDescSpec(xs);
    assert |sorted| == |xs| by {
      assert |multiset(sorted)| == |multiset(xs)|;
    }
    TakeSpec(sorted, 3);
  }

  /** A prefix of a non-increasing sequence: in order, taken from it, and
      dominating every value left out. */
  lemma TakeSpec(s: seq<int>, n: nat)
    requires NonIncreasing(s)
    ensures |Take(s, n)| == if |s| < n then |s| else n
    ensures NonIncreasing(Take(s, n))
    ensures multiset(Take(s, n)) <= multiset(s)
    ensures forall y, j :: y in multiset(s) - multiset(Take(s, n)) && 0 <= j < |Take(s, n)| ==> y <= Take(s, n)[j]
  {
    var top := Take(s, n);
    var rest := s[|top|..];
    assert s == top + rest;
    assert multiset(s) - multiset(top) == multiset(rest);
    PrefixDominates(s, |top|);
  }

  lemma PrefixDominates(s: seq<int>, n: nat)
    requires NonIncreasing(s) && n <= |s|
    ensures forall y, j :: y in multiset(s[n..]) && 0 <= j < n ==> y <= s[j]
  {
    forall y, j | y in multiset(s[n..]) && 0 <= j < n
      ensures y <= s[j]
    {
      var k :| 0 <= k < |s[n..]| && s[n..][k] == y;
      assert s[n + k] == y;
    }
  }

  /** The head of the top three is the largest value. */
  lemma TopThreeHead(xs: seq<int>)
    requires xs != []
    ensures TopThree(xs) != []
    ensures TopThree(xs)[0] in xs
    ensures forall x :: x in xs ==> x <= TopThree(xs)[0]
  {
    TopThreeSpec(xs);
    var top := TopThree(xs);
    assert top[0] in multiset(top);
    forall x | x in xs
      ensures x <= top[0]
    {
      if x !in multiset(top) {
        assert x in multiset(xs) - multiset(top);
      } else {
        var k :| 0 <= k < |top| && top[k] == x;
      }
    }
  }
}

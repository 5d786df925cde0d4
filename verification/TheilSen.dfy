/** The robust slope estimator: the median of all pairwise slopes, and how many points may
    be wild before it moves. */
module TheilSen {
  import opened Wrappers
  import opened Seqs

  /** The tone bin the tilt is measured from. */
  const REF: int := 4

  // ---------------------------------------------------------------------------- median

  /** How often `b` occurs. */
  function Count(s: seq<real>, b: real): nat {
    if s == [] then 0 else (if s[0] == b then 1 else 0) + Count(s[1..], b)
  }

  lemma {:induction false} CountConcat(s: seq<real>, t: seq<real>, b: real)
    ensures Count(s + t, b) == Count(s, b) + Count(t, b)
  {
    if s == [] {
      assert s + t == t;
    } else {
      CountConcat(s[1..], t, b);
      assert (s + t)[1..] == s[1..] + t;
    }
  }

  ghost predicate Ascending(s: seq<real>) {
    forall i, j | 0 <= i < j < |s| :: s[i] <= s[j]
  }

  function Insert(x: real, s: seq<real>): (r: seq<real>)
    ensures |r| == |s| + 1
  {
    if s == [] || x <= s[0] then [x] + s else [s[0]] + Insert(x, s[1..])
  }

  function Sorted(s: seq<real>): (r: seq<real>)
    ensures |r| == |s|
  {
    if s == [] then [] else Insert(s[0], Sorted(s[1..]))
  }

  lemma {:induction false} InsertKeeps(x: real, s: seq<real>, b: real)
    requires Ascending(s)
    ensures Ascending(Insert(x, s)) && Count(Insert(x, s), b) == Count(s, b) + if x == b then 1 else 0
    ensures s != [] && s[0] <= x ==> Insert(x, s)[0] == s[0]
    ensures s == [] || x <= s[0] ==> Insert(x, s)[0] == x
  {
    if s == [] || x <= s[0] {
      assert ([x] + s)[1..] == s;
    } else {
      InsertKeeps(x, s[1..], b);
      var r := Insert(x, s[1..]);
      assert ([s[0]] + r)[1..] == r;
      assert s[0] <= r[0];
    }
  }

  lemma {:induction false} SortKeeps(s: seq<real>, b: real)
    ensures Ascending(Sorted(s)) && Count(Sorted(s), b) == Count(s, b)
  {
    if s != [] {
      SortKeeps(s[1..], b);
      InsertKeeps(s[0], Sorted(s[1..]), b);
    }
  }

  /** The middle entry, or the mean of the middle two. */
  function Median(s: seq<real>): real
    requires s != []
  {
    var t := Sorted(s);
    if |s| % 2 == 1 then t[|s| / 2] else (t[|s| / 2 - 1] + t[|s| / 2]) / 2.0
  }

  lemma {:induction false} CountWithin(s: seq<real>, b: real)
    ensures Count(s, b) <= |s|
  {
    if s != [] {
      CountWithin(s[1..], b);
    }
  }

  lemma {:induction false} CountAbsent(s: seq<real>, b: real)
    requires forall i | 0 <= i < |s| :: s[i] != b
    ensures Count(s, b) == 0
  {
    if s != [] {
      CountAbsent(s[1..], b);
    }
  }

  lemma CountBelow(t: seq<real>, b: real, k: nat)
    requires Ascending(t) && k < |t| && t[k] > b
    ensures Count(t, b) <= k
  {
    hide Count;
    var low, high := t[..k], t[k..];
    assert t == low + high;
    CountConcat(low, high, b);
    CountWithin(low, b);
    forall i | 0 <= i < |high|
      ensures high[i] != b
    {
      assert i > 0 ==> t[k] <= t[k + i];
    }
    CountAbsent(high, b);
  }

  lemma CountAbove(t: seq<real>, b: real, k: nat)
    requires Ascending(t) && k < |t| && t[k] < b
    ensures Count(t, b) <= |t| - 1 - k
  {
    hide Count;
    var low, high := t[..k + 1], t[k + 1..];
    assert t == low + high;
    CountConcat(low, high, b);
    CountWithin(high, b);
    forall i | 0 <= i < |low|
      ensures low[i] != b
    {
      assert i < k ==> t[i] <= t[k];
    }
    CountAbsent(low, b);
  }

  /** A value that fills more than the entries on either side of `k` is entry `k`. */
  lemma MajorityAt(t: seq<real>, b: real, k: nat)
    requires Ascending(t) && k < |t| && Count(t, b) > k && Count(t, b) > |t| - 1 - k
    ensures t[k] == b
  {
    hide Count;
    if t[k] > b {
      CountBelow(t, b, k);
    } else if t[k] < b {
      CountAbove(t, b, k);
    }
  }

  /** A value held by a strict majority is the median, for odd and even lengths. */
  lemma MajorityIsMedian(s: seq<real>, b: real)
    requires 2 * Count(s, b) > |s|
    ensures s != [] && Median(s) == b
  {
    SortKeeps(s, b);
    CountWithin(s, b);
    MajorityAt(Sorted(s), b, |s| / 2);
    if |s| % 2 == 0 {
      MajorityAt(Sorted(s), b, |s| / 2 - 1);
    }
  }

  /** How many entries are below `x`, and how many are not above it. */
  function Below(s: seq<real>, x: real): nat {
    if s == [] then 0 else (if s[0] < x then 1 else 0) + Below(s[1..], x)
  }

  function UpTo(s: seq<real>, x: real): nat {
    if s == [] then 0 else (if s[0] <= x then 1 else 0) + UpTo(s[1..], x)
  }

  lemma {:induction false} InsertRanks(y: real, s: seq<real>, x: real)
    ensures Below(Insert(y, s), x) == Below(s, x) + if y < x then 1 else 0
    ensures UpTo(Insert(y, s), x) == UpTo(s, x) + if y <= x then 1 else 0
  {
    if s == [] || y <= s[0] {
      assert ([y] + s)[1..] == s;
    } else {
      InsertRanks(y, s[1..], x);
      assert ([s[0]] + Insert(y, s[1..]))[1..] == Insert(y, s[1..]);
    }
  }

  lemma {:induction false} SortRanks(s: seq<real>, x: real)
    ensures Below(Sorted(s), x) == Below(s, x) && UpTo(Sorted(s), x) == UpTo(s, x)
  {
    if s != [] {
      SortRanks(s[1..], x);
      InsertRanks(s[0], Sorted(s[1..]), x);
    }
  }

  lemma {:induction false} RankBounds(t: seq<real>, x: real, k: nat)
    requires k <= |t|
    ensures (forall i | k <= i < |t| :: t[i] >= x) ==> Below(t, x) <= k
    ensures (forall i | 0 <= i < k :: t[i] <= x) ==> UpTo(t, x) >= k
  {
    if t != [] {
      RankBounds(t[1..], x, if k == 0 then 0 else k - 1);
    }
  }

  /** Entry `k` of the sorted sequence: `k` entries at most are below it, and more than `k` are
      not above it. */
  ghost predicate HasRank(s: seq<real>, k: nat, x: real) {
    x in s && Below(s, x) <= k < UpTo(s, x)
  }

  lemma {:induction false} InsertMembers(y: real, s: seq<real>)
    ensures forall x :: x in Insert(y, s) <==> x == y || x in s
  {
    if s != [] && y > s[0] {
      InsertMembers(y, s[1..]);
      assert s == [s[0]] + s[1..];
    }
  }

  lemma {:induction false} SortMembers(s: seq<real>)
    ensures forall x :: x in Sorted(s) <==> x in s
  {
    if s != [] {
      SortMembers(s[1..]);
      InsertMembers(s[0], Sorted(s[1..]));
      assert s == [s[0]] + s[1..];
    }
  }

  lemma SortedRank(s: seq<real>, k: nat)
    requires k < |s|
    ensures HasRank(s, k, Sorted(s)[k])
  {
    hide Below, UpTo, Count, Sorted;
    var t := Sorted(s);
    var x := t[k];
    SortKeeps(s, x);
    SortMembers(s);
    SortRanks(s, x);
    assert forall i | k <= i < |t| :: t[i] >= x;
    assert forall i | 0 <= i < k + 1 :: t[i] <= x;
    hide Ascending;
    RankBounds(t, x, k);
    RankBounds(t, x, k + 1);
  }

  /** The median by ranks: with `n` entries half way between those of ranks (n-1)/2 and n/2,
      which for odd `n` is one and the same. */
  lemma MedianRanks(s: seq<real>) returns (low: real, high: real)
    requires s != []
    ensures HasRank(s, (|s| - 1) / 2, low) && HasRank(s, |s| / 2, high)
    ensures Median(s) == (low + high) / 2.0
  {
    var t := Sorted(s);
    SortedRank(s, (|s| - 1) / 2);
    SortedRank(s, |s| / 2);
    hide Sorted, HasRank;
    low, high := t[(|s| - 1) / 2], t[|s| / 2];
  }

  /** A rank belongs to one value. */
  lemma RankUnique(s: seq<real>, k: nat, x: real, y: real)
    requires HasRank(s, k, x) && HasRank(s, k, y)
    ensures x == y
  {
    if x < y {
      UpToBelow(s, x, y);
    } else if y < x {
      UpToBelow(s, y, x);
    }
  }

  lemma {:induction false} UpToBelow(s: seq<real>, x: real, y: real)
    requires x < y
    ensures UpTo(s, x) <= Below(s, y)
  {
    if s != [] {
      UpToBelow(s[1..], x, y);
    }
  }

  // ---------------------------------------------------------------------------- slopes

  datatype Point = Point(x: int, y: real)

  /** Tone bins ascend. */
  ghost predicate Binned(pts: seq<Point>) {
    forall i, j | 0 <= i < j < |pts| :: pts[i].x < pts[j].x
  }

  function Slope(p: Point, q: Point): real
    requires p.x != q.x
  {
    (q.y - p.y) / (q.x - p.x) as real
  }

  /** The slopes from point `i` to the points from `j` on. */
  function Row(pts: seq<Point>, i: nat, j: nat): (r: seq<real>)
    requires Binned(pts) && i < j <= |pts|
    ensures |r| == |pts| - j
    decreases |pts| - j
  {
    if j == |pts| then [] else [Slope(pts[i], pts[j])] + Row(pts, i, j + 1)
  }

  /** The slopes of all pairs among the points from `i` on. */
  function Slopes(pts: seq<Point>, i: nat): (r: seq<real>)
    requires Binned(pts) && i <= |pts|
    ensures |r| == Pairs(|pts| - i)
    decreases |pts| - i
  {
    if i == |pts| then [] else Row(pts, i, i + 1) + Slopes(pts, i + 1)
  }

  /** The number of pairs among `n` things. */
  function Pairs(n: nat): nat {
    if n == 0 then 0 else n - 1 + Pairs(n - 1)
  }

  lemma PairsStep(n: nat)
    ensures Pairs(n + 1) == n + Pairs(n)
  {
  }

  lemma {:induction false} PairsFormula(n: nat)
    ensures 2 * Pairs(n) == n * (n - 1)
  {
    if n > 0 {
      PairsFormula(n - 1);
    }
  }

  /** The two nested loops that collect the slopes. */
  method CollectSlopes(pts: seq<Point>) returns (sl: seq<real>)
    requires Binned(pts)
    ensures sl == Slopes(pts, 0)
  {
    hide Slopes, Row;
    sl := [];
    for i := 0 to |pts|
      invariant sl + Slopes(pts, i) == Slopes(pts, 0)
    {
      SlopesStep(pts, i);
      Associate(sl, Row(pts, i, i + 1), Slopes(pts, i + 1));
      sl := CollectRow(pts, i, sl);
    }
    NoSlopes(pts);
    assert sl + [] == sl;
  }

  /** The inner loop. */
  method CollectRow(pts: seq<Point>, i: nat, before: seq<real>) returns (sl: seq<real>)
    requires Binned(pts) && i < |pts|
    ensures sl == before + Row(pts, i, i + 1)
  {
    hide Row;
    sl := before;
    for j := i + 1 to |pts|
      invariant sl + Row(pts, i, j) == before + Row(pts, i, i + 1)
    {
      RowStep(pts, i, j);
      Associate(sl, [Slope(pts[i], pts[j])], Row(pts, i, j + 1));
      sl := sl + [Slope(pts[i], pts[j])];
    }
    assert sl + [] == sl;
  }

  lemma SlopesStep(pts: seq<Point>, i: nat)
    requires Binned(pts) && i < |pts|
    ensures Slopes(pts, i) == Row(pts, i, i + 1) + Slopes(pts, i + 1)
  {
  }

  lemma NoSlopes(pts: seq<Point>)
    requires Binned(pts)
    ensures Slopes(pts, |pts|) == []
  {
  }

  lemma RowStep(pts: seq<Point>, i: nat, j: nat)
    requires Binned(pts) && i < j < |pts|
    ensures Row(pts, i, j) == [Slope(pts[i], pts[j])] + Row(pts, i, j + 1)
  {
  }

  /** `theil_sen` on the points of the tone bins; nothing below six points. */
  method Estimate(pts: seq<Point>, edge: int) returns (r: Option<real>)
    requires Binned(pts)
    ensures r.None? <==> |pts| < 6
    ensures r.Some? ==> |Slopes(pts, 0)| > 0
                        && r.value == Tilt(Median(Slopes(pts, 0)), edge)
  {
    if |pts| < 6 {
      return None;
    }
    hide Median, Slopes, Tilt;
    var sl := CollectSlopes(pts);
    assert |sl| == Pairs(|pts|) >= |pts| - 1;
    r := Some(Tilt(Median(sl), edge));
  }

  /** The loss from the reference bin to the band edge, and never a gain. */
  function Tilt(slope: real, edge: int): real {
    var loss := -slope * (edge - REF) as real;
    if loss > 0.0 then loss else 0.0
  }

  // ------------------------------------------------------------------------- robustness

  /** A point on the line with slope `b` through height `a` at zero. */
  predicate OnLine(p: Point, a: real, b: real) {
    p.y == a + b * p.x as real
  }

  /** How many of the points from `i` on are on the line. */
  function Clean(pts: seq<Point>, i: nat, a: real, b: real): nat
    requires i <= |pts|
    decreases |pts| - i
  {
    if i == |pts| then 0 else (if OnLine(pts[i], a, b) then 1 else 0) + Clean(pts, i + 1, a, b)
  }

  lemma CleanSlope(p: Point, q: Point, a: real, b: real)
    requires p.x < q.x && OnLine(p, a, b) && OnLine(q, a, b)
    ensures Slope(p, q) == b
  {
    var d := (q.x - p.x) as real;
    assert d == q.x as real - p.x as real;
    assert q.y - p.y == b * d;
    Undo(b, d);
  }

  lemma Undo(b: real, d: real)
    requires d != 0.0
    ensures b * d / d == b
  {
  }

  lemma {:induction false} RowCounts(pts: seq<Point>, i: nat, j: nat, a: real, b: real)
    requires Binned(pts) && i < j <= |pts| && OnLine(pts[i], a, b)
    ensures Count(Row(pts, i, j), b) >= Clean(pts, j, a, b)
    decreases |pts| - j
  {
    if j < |pts| {
      hide Count, Row, OnLine, Slope;
      RowCounts(pts, i, j + 1, a, b);
      RowStep(pts, i, j);
      CountConcat([Slope(pts[i], pts[j])], Row(pts, i, j + 1), b);
      CountOne(Slope(pts[i], pts[j]), b);
      if OnLine(pts[j], a, b) {
        CleanSlope(pts[i], pts[j], a, b);
      }
    }
  }

  lemma CountOne(x: real, b: real)
    ensures Count([x], b) == if x == b then 1 else 0
  {
    assert [x][1..] == [];
  }

  /** Every pair of points on the line gives the line's slope. */
  lemma {:induction false} SlopesCount(pts: seq<Point>, i: nat, a: real, b: real)
    requires Binned(pts) && i <= |pts|
    ensures Count(Slopes(pts, i), b) >= Pairs(Clean(pts, i, a, b))
    decreases |pts| - i
  {
    if i < |pts| {
      hide Count, Row, OnLine, Slopes, Pairs;
      SlopesCount(pts, i + 1, a, b);
      SlopesStep(pts, i);
      PairsStep(Clean(pts, i + 1, a, b));
      CountConcat(Row(pts, i, i + 1), Slopes(pts, i + 1), b);
      if OnLine(pts[i], a, b) {
        RowCounts(pts, i, i + 1, a, b);
      }
    }
  }

  /** Whatever the other points are, the estimate is the true slope as long as a strict
      majority of all pairs are pairs of points on the line. */
  lemma RobustSlope(pts: seq<Point>, a: real, b: real)
    requires Binned(pts) && 2 * Pairs(Clean(pts, 0, a, b)) > Pairs(|pts|)
    ensures Slopes(pts, 0) != [] && Median(Slopes(pts, 0)) == b
  {
    SlopesCount(pts, 0, a, b);
    MajorityIsMedian(Slopes(pts, 0), b);
  }

  /** The estimate is then how far the line falls from tone bin 4 to the band edge, and nothing
      where it rises. */
  lemma RobustTilt(pts: seq<Point>, a: real, b: real, edge: int)
    requires Binned(pts) && 2 * Pairs(Clean(pts, 0, a, b)) > Pairs(|pts|)
    ensures Slopes(pts, 0) != []
    ensures var fall := (a + b * 4.0) - (a + b * edge as real);
            Tilt(Median(Slopes(pts, 0)), edge) == if fall > 0.0 then fall else 0.0
  {
    RobustSlope(pts, a, b);
    hide Slopes, Median, Clean, Pairs;
    FallOf(a, b, edge);
  }

  lemma FallOf(a: real, b: real, edge: int)
    ensures -b * (edge - 4) as real == (a + b * 4.0) - (a + b * edge as real)
  {
    var x := edge as real;
    assert (edge - 4) as real == x - 4.0;
  }

  /** One arbitrary point among five or more cannot move it. */
  lemma OneDud(pts: seq<Point>, a: real, b: real)
    requires Binned(pts) && |pts| >= 5 && Clean(pts, 0, a, b) >= |pts| - 1
    ensures Slopes(pts, 0) != [] && Median(Slopes(pts, 0)) == b
  {
    var n := |pts|;
    PairsFormula(n);
    PairsFormula(n - 1);
    CleanWithin(pts, 0, a, b);
    var g := Clean(pts, 0, a, b);
    assert 2 * Pairs(n - 1) > Pairs(n) by {
      assert Pairs(n) == n - 1 + Pairs(n - 1);
      ThriceAtLeast(n - 2, n - 1);
    }
    assert Pairs(g) >= Pairs(n - 1);
    RobustSlope(pts, a, b);
  }

  lemma ThriceAtLeast(k: nat, n: nat)
    requires k >= 3
    ensures n * k >= 3 * n
  {
  }

  lemma {:induction false} CleanWithin(pts: seq<Point>, i: nat, a: real, b: real)
    requires i <= |pts|
    ensures Clean(pts, i, a, b) <= |pts| - i
    decreases |pts| - i
  {
    if i < |pts| {
      CleanWithin(pts, i + 1, a, b);
    }
  }

  /** Three points on the axis and one off it. */
  const FOUR: seq<Point> := [Point(0, 0.0), Point(1, 0.0), Point(2, 0.0), Point(3, 6.0)]

  lemma FourRows()
    ensures Binned(FOUR)
    ensures Row(FOUR, 0, 1) == [0.0, 0.0, 2.0] && Row(FOUR, 1, 2) == [0.0, 3.0] && Row(FOUR, 2, 3) == [6.0]
  {
    hide Row;
    NoRow(0);
    NoRow(1);
    NoRow(2);
    RowStep(FOUR, 0, 1);
    RowStep(FOUR, 0, 2);
    RowStep(FOUR, 0, 3);
    RowStep(FOUR, 1, 2);
    RowStep(FOUR, 1, 3);
    RowStep(FOUR, 2, 3);
  }

  lemma NoRow(i: nat)
    requires i < 4 && Binned(FOUR)
    ensures Row(FOUR, i, 4) == []
  {
  }

  lemma FourSlopes()
    ensures Binned(FOUR) && Slopes(FOUR, 0) == [0.0, 0.0, 2.0, 0.0, 3.0, 6.0]
  {
    hide Slopes, Row;
    FourRows();
    SlopesStep(FOUR, 0);
    SlopesStep(FOUR, 1);
    SlopesStep(FOUR, 2);
    LastSlopes();
  }

  lemma LastSlopes()
    requires Binned(FOUR)
    ensures Slopes(FOUR, 3) == []
  {
    assert Row(FOUR, 3, 4) == [];
  }

  /** Among four points one wild one can move it: half of the pairs are then wild. */
  lemma FourAreTooFew()
    ensures Binned(FOUR) && Clean(FOUR, 0, 0.0, 0.0) == 3
    ensures Slopes(FOUR, 0) != [] && Median(Slopes(FOUR, 0)) != 0.0
  {
    FourSlopes();
    FourClean();
    SortSample();
    hide Slopes, Clean, Sorted;
  }

  lemma FourClean()
    ensures Clean(FOUR, 0, 0.0, 0.0) == 3
  {
    assert Clean(FOUR, 3, 0.0, 0.0) == 0 && Clean(FOUR, 2, 0.0, 0.0) == 1;
  }

  lemma SortSample()
    ensures Sorted([0.0, 0.0, 2.0, 0.0, 3.0, 6.0]) == [0.0, 0.0, 0.0, 2.0, 3.0, 6.0]
  {
    assert Sorted([6.0]) == [6.0];
    assert Sorted([3.0, 6.0]) == [3.0, 6.0];
    assert Sorted([0.0, 3.0, 6.0]) == [0.0, 3.0, 6.0];
    assert Sorted([2.0, 0.0, 3.0, 6.0]) == [0.0, 2.0, 3.0, 6.0];
    assert Sorted([0.0, 2.0, 0.0, 3.0, 6.0]) == [0.0, 0.0, 2.0, 3.0, 6.0];
  }
}

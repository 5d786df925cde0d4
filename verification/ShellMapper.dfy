/** The V.34 shell mapper (section 9.4 of ITU-T V.34): the count tables, the mapping of an
    index onto eight ring numbers in `modulatevector`, and its inverse `shellDemapper`. */
module ShellMapper {

  // --------------------------------------------------------------------- correlations

  /** One way of splitting a total `d`: `n` to the first of two things counted by `t`. */
  function Term(t: seq<nat>, d: nat, n: nat): nat
    requires n <= d < |t|
  {
    t[n] * t[d - n]
  }

  /** The first `n` terms of t[0] t[d] + t[1] t[d-1] + ...; all d + 1 of them count the
      ways of splitting a total `d` between two things counted by `t`. */
  function Correlate(t: seq<nat>, d: nat, n: nat): nat
    requires n <= d + 1 <= |t|
  {
    if n == 0 then 0 else Correlate(t, d, n - 1) + Term(t, d, n - 1)
  }

  lemma CorrelateStep(t: seq<nat>, d: nat, n: nat)
    requires n <= d + 1 <= |t|
    ensures n == 0 ==> Correlate(t, d, n) == 0
    ensures n > 0 ==> Correlate(t, d, n) == Correlate(t, d, n - 1) + Term(t, d, n - 1)
  {
  }

  function Ways(t: seq<nat>, d: nat): nat
    requires d < |t|
  {
    Correlate(t, d, d + 1)
  }

  lemma {:induction false} CorrelateMonotone(t: seq<nat>, d: nat, m: nat, n: nat)
    requires m <= n <= d + 1 <= |t|
    ensures Correlate(t, d, m) <= Correlate(t, d, n)
    decreases n
  {
    if m < n {
      CorrelateMonotone(t, d, m, n - 1);
    }
  }

  /** A position inside a correlation names its term and its place in that term. */
  lemma PeelUnique(t: seq<nat>, d: nat, m: nat, x: nat, n: nat, y: nat)
    requires m <= d < |t| && n <= d
    requires x < Term(t, d, m) && y < Term(t, d, n)
    requires Correlate(t, d, m) + x == Correlate(t, d, n) + y
    ensures m == n && x == y
  {
    hide Term;
    if m < n {
      CorrelateMonotone(t, d, m + 1, n);
    } else if n < m {
      CorrelateMonotone(t, d, n + 1, m);
    }
  }

  /** The peeling loop: subtract products until the next one would go below zero. */
  method Peel(t: seq<nat>, d: nat, index: nat) returns (n: nat, rem: nat)
    requires d < |t| && index < Ways(t, d)
    ensures n <= d && rem < Term(t, d, n)
    ensures Correlate(t, d, n) + rem == index
  {
    rem, n := index, 0;
    var trial := rem - t[0] * t[d];
    while trial >= 0
      invariant 0 <= n <= d
      invariant Correlate(t, d, n) + rem == index
      invariant trial == rem - t[n] * t[d - n]
      decreases d - n
    {
      assert n < d;
      rem := trial;
      n := n + 1;
      trial := trial - t[n] * t[d - n];
    }
  }

  /** `shell_correlate`: two cursors walking towards each other. */
  method ShellCorrelate(t: seq<nat>, d: nat, n: nat) returns (sum: nat)
    requires n <= d + 1 <= |t|
    ensures sum == Correlate(t, d, n)
  {
    sum := 0;
    var lo, hi := 0, d;
    for i := 0 to n
      invariant lo == i && hi == d - i && sum == Correlate(t, d, i)
    {
      sum := sum + t[lo] * t[hi];
      lo, hi := lo + 1, hi - 1;
    }
  }

  // --------------------------------------------------------------------------- tables

  const SIZE: nat := 128
  /** What `preinitV34` leaves in the unused part of `t3`: -1, read unsigned. */
  const UNUSED: nat := 0xFFFF_FFFF

  /** A word of `t3` as the demapper reads it, which is signed. */
  function SignedWord(x: nat): int {
    if x < 0x8000_0000 then x else x - 0x1_0000_0000
  }

  /** How many pairs of ring numbers below `rings` have total `n`. */
  function Tent(rings: nat, n: nat): nat {
    if n < rings then n + 1 else if n < 2 * rings - 1 then 2 * rings - 1 - n else 0
  }

  /** `count`, the three tables, and how much of `t3` is filled. */
  datatype Tables = Tables(rings: nat, t1: seq<nat>, t2: seq<nat>, t3: seq<nat>, shells: nat)

  /** The shell after `k` starts where shell `k` ends. */
  ghost predicate StartsAfter(t2: seq<nat>, t3: seq<nat>, k: nat)
    requires k + 1 < |t3| && k < |t2|
  {
    t3[k + 1] == t3[k] + Ways(t2, k)
  }

  ghost predicate Counts(t1: seq<nat>, t2: seq<nat>, n: nat)
    requires n < |t1| && n < |t2|
  {
    t2[n] == Ways(t1, n)
  }

  /** `t1` counts pairs of rings, `t2` fours, and `t3[k]` the eights with total below `k`. */
  ghost predicate Valid(s: Tables) {
    && s.rings >= 1 && 4 * (s.rings - 1) < SIZE && 1 <= s.shells <= SIZE
    && |s.t1| == SIZE && |s.t2| == SIZE && |s.t3| == SIZE
    && (forall n | 0 <= n < SIZE :: s.t1[n] == Tent(s.rings, n))
    && (forall n | 0 <= n < SIZE :: Counts(s.t1, s.t2, n))
    && s.t3[0] == 0 && (forall k | 0 <= k < s.shells :: s.t3[k] < 0x8000_0000)
    && (forall k | 0 <= k < s.shells - 1 :: StartsAfter(s.t2, s.t3, k))
    && (forall k | s.shells <= k < SIZE :: s.t3[k] == UNUSED)
  }

  /** One past the last index the tables reach. */
  ghost function Capacity(s: Tables): nat
    requires Valid(s)
  {
    s.t3[s.shells - 1] + Ways(s.t2, s.shells - 1)
  }

  // ------------------------------------------------------------- building t1 and t2

  /** A tent table is its own mirror image about `rings - 1` and zero past its end. */
  ghost predicate IsTent(t: seq<nat>, rings: nat) {
    |t| == SIZE && forall n | 0 <= n < SIZE :: t[n] == Tent(rings, n)
  }

  /** A term with a number past the tent's end counts nothing. */
  lemma TermVanishes(t: seq<nat>, rings: nat, d: nat, n: nat)
    requires IsTent(t, rings) && rings >= 1 && n <= d < SIZE && (n > 2 * (rings - 1) || d - n > 2 * (rings - 1))
    ensures Term(t, d, n) == 0
  {
    assert t[n] == 0 || t[d - n] == 0;
  }

  lemma {:induction false} FrontIsZero(t: seq<nat>, rings: nat, j: nat, n: nat)
    requires IsTent(t, rings) && rings >= 1 && 4 * (rings - 1) < SIZE && j + n <= 2 * (rings - 1)
    ensures Correlate(t, 4 * (rings - 1) - j, n) == 0
    decreases n
  {
    hide Term, IsTent;
    if n != 0 {
      FrontIsZero(t, rings, j, n - 1);
      TermVanishes(t, rings, 4 * (rings - 1) - j, n - 1);
    }
  }

  lemma TentMirrors(t: seq<nat>, rings: nat, k: nat)
    requires IsTent(t, rings) && 1 <= rings && k <= 2 * (rings - 1) < SIZE
    ensures t[2 * (rings - 1) - k] == t[k]
  {
  }

  lemma Commute(x: nat, y: nat)
    ensures x * y == y * x
  {
  }

  lemma TermMirrors(t: seq<nat>, rings: nat, j: nat, m: nat)
    requires IsTent(t, rings) && rings >= 1 && 4 * (rings - 1) < SIZE && m <= j <= 2 * (rings - 1)
    ensures Term(t, 4 * (rings - 1) - j, 2 * (rings - 1) - j + m) == Term(t, j, m)
  {
    TentMirrors(t, rings, m);
    TentMirrors(t, rings, j - m);
    Commute(t[m], t[j - m]);
  }

  lemma {:induction false} MiddleMirrors(t: seq<nat>, rings: nat, j: nat, m: nat)
    requires IsTent(t, rings) && rings >= 1 && 4 * (rings - 1) < SIZE && j <= 2 * (rings - 1) && m <= j + 1
    ensures Correlate(t, 4 * (rings - 1) - j, 2 * (rings - 1) - j + m) == Correlate(t, j, m)
    decreases m
  {
    hide Correlate, Term;
    var top := 2 * (rings - 1);
    var n, d := top - j + m, 2 * top - j;
    CorrelateStep(t, d, n);
    CorrelateStep(t, j, m);
    if m == 0 {
      FrontIsZero(t, rings, j, top - j);
    } else {
      MiddleMirrors(t, rings, j, m - 1);
      TermMirrors(t, rings, j, m - 1);
    }
  }

  lemma {:induction false} BackIsZero(t: seq<nat>, rings: nat, d: nat, m: nat, n: nat)
    requires IsTent(t, rings) && rings >= 1 && 2 * (rings - 1) < m <= n <= d + 1 <= SIZE
    ensures Correlate(t, d, n) == Correlate(t, d, m)
    decreases n
  {
    hide Term, IsTent;
    if m < n {
      BackIsZero(t, rings, d, m, n - 1);
      TermVanishes(t, rings, d, n - 1);
    }
  }

  /** The ways of reaching a total with four rings mirror about the middle total. */
  lemma WaysMirror(t: seq<nat>, rings: nat, j: nat)
    requires IsTent(t, rings) && rings >= 1 && 4 * (rings - 1) < SIZE && j <= 2 * (rings - 1)
    ensures Ways(t, 4 * (rings - 1) - j) == Ways(t, j)
  {
    var d, top := 4 * (rings - 1) - j, 2 * (rings - 1);
    MiddleMirrors(t, rings, j, j + 1);
    BackIsZero(t, rings, d, top + 1, d + 1);
  }

  lemma {:induction false} WaysVanish(t: seq<nat>, rings: nat, d: nat, n: nat)
    requires IsTent(t, rings) && rings >= 1 && 4 * (rings - 1) < d < SIZE && n <= d + 1
    ensures Correlate(t, d, n) == 0
    decreases n
  {
    hide Term, IsTent;
    if n != 0 {
      WaysVanish(t, rings, d, n - 1);
      TermVanishes(t, rings, d, n - 1);
    }
  }

  /** No sum of products leaves sixteen bits for any ring count the modem uses. */
  lemma {:induction false} WaysAreShort(t: seq<nat>, rings: nat, d: nat, n: nat)
    requires IsTent(t, rings) && 1 <= rings <= 18 && n <= d + 1 <= SIZE
    ensures Correlate(t, d, n) <= 324 * (if n < 35 then n else 35)
    decreases n
  {
    hide Term, IsTent;
    if n != 0 {
      WaysAreShort(t, rings, d, n - 1);
      TermIsSmall(t, rings, d, n - 1);
    }
  }

  lemma TermIsSmall(t: seq<nat>, rings: nat, d: nat, n: nat)
    requires IsTent(t, rings) && 1 <= rings <= 18 && n <= d < SIZE
    ensures Term(t, d, n) <= 324 && (n >= 35 ==> Term(t, d, n) == 0)
  {
    var x, y := t[n], t[d - n];
    assert x <= 18 && y <= 18;
    ProductIsSmall(x, y);
    if n >= 35 {
      TermVanishes(t, rings, d, n);
    }
  }

  lemma ProductIsSmall(x: nat, y: nat)
    requires x <= 18 && y <= 18
    ensures x * y <= 324
  {
    TimesMonotone(x, y, 18);
  }

  /** `initG248`'s two loops, each storing from both ends at once. */
  method InitG248(rings: nat, t1: array<nat>, t2: array<nat>)
    requires 1 <= rings <= 18 && t1 != t2 && t1.Length == SIZE && t2.Length == SIZE
    requires forall i | 0 <= i < SIZE :: t1[i] == 0 && t2[i] == 0
    modifies t1, t2
    ensures IsTent(t1[..], rings)
    ensures forall n | 0 <= n < SIZE :: t2[n] == Ways(t1[..], n) && t2[n] < 0x8000
  {
    hide Tent, Ways;
    FillPairs(rings, t1);
    ghost var t := t1[..];
    FillFours(rings, t1[..], t2);
    assert t1[..] == t;
  }

  method FillPairs(rings: nat, t1: array<nat>)
    requires 1 <= rings <= 18 && t1.Length == SIZE && forall i | 0 <= i < SIZE :: t1[i] == 0
    modifies t1
    ensures IsTent(t1[..], rings)
  {
    var top := 2 * (rings - 1);
    for i := 0 to rings
      invariant forall k | 0 <= k < SIZE ::
                  t1[k] == if k < i || top - i < k <= top then Tent(rings, k) else 0
    {
      t1[top - i] := i + 1;
      t1[i] := i + 1;
    }
  }

  method FillFours(rings: nat, t: seq<nat>, t2: array<nat>)
    requires 1 <= rings <= 18 && IsTent(t, rings) && t2.Length == SIZE && forall i | 0 <= i < SIZE :: t2[i] == 0
    modifies t2
    ensures forall n | 0 <= n < SIZE :: t2[n] == Ways(t, n) && t2[n] < 0x8000
  {
    assert |t| == SIZE;
    hide Ways, IsTent;
    var top := 2 * (rings - 1);
    for j := 0 to top + 1
      invariant forall k | 0 <= k < SIZE ::
                  t2[k] == if k < j || 2 * top - j < k <= 2 * top then Ways(t, k) else 0
    {
      var acc := CorrelateAll(t, j);
      WaysMirror(t, rings, j);
      t2[2 * top - j] := acc;
      t2[j] := acc;
    }
    forall n | 0 <= n < SIZE
      ensures t2[n] == Ways(t, n) && t2[n] < 0x8000
    {
      WaysSmall(t, rings, n);
    }
  }

  method CorrelateAll(t: seq<nat>, d: nat) returns (sum: nat)
    requires d < |t|
    ensures sum == Ways(t, d)
  {
    sum := ShellCorrelate(t, d, d + 1);
  }

  lemma WaysSmall(t: seq<nat>, rings: nat, n: nat)
    requires IsTent(t, rings) && 1 <= rings <= 18 && n < SIZE
    ensures Ways(t, n) < 0x8000 && (n > 4 * (rings - 1) ==> Ways(t, n) == 0)
  {
    WaysAreShort(t, rings, n, n + 1);
    if n > 4 * (rings - 1) {
      WaysVanish(t, rings, n, n + 1);
    }
  }

  // ------------------------------------------------------------------------ demapping

  /** The place of a pair among the pairs of its total: the first number counts up, or
      the second down once the total is too large for the first to start at zero. */
  function PairIndex(rings: nat, a: nat, b: nat): int {
    if a + b >= rings - 1 then rings - 1 - b else a
  }

  /** The place of four ring numbers among those whose first pair has the same total. */
  function GroupPlace(s: Tables, a: nat, b: nat, c: nat, d: nat): int
    requires a + b < |s.t1|
  {
    s.t1[a + b] * PairIndex(s.rings, c, d) + PairIndex(s.rings, a, b)
  }

  /** `shell_group`: the place of four ring numbers among those of their total. */
  function GroupIndex(s: Tables, a: nat, b: nat, c: nat, d: nat): int
    requires |s.t1| == SIZE && a + b + c + d < SIZE
  {
    GroupPlace(s, a, b, c, d) + Correlate(s.t1, a + b + c + d, a + b)
  }

  /** Eight ring numbers, as the mapper and the demapper exchange them. */
  datatype Rings = Rings(a: nat, b: nat, c: nat, d: nat, e: nat, f: nat, g: nat, h: nat)

  function First(r: Rings): nat { r.a + r.b + r.c + r.d }
  function Second(r: Rings): nat { r.e + r.f + r.g + r.h }
  /** The shell a point lies on. */
  function Total(r: Rings): nat { First(r) + Second(r) }

  predicate InRange(rings: nat, r: Rings) {
    && r.a < rings && r.b < rings && r.c < rings && r.d < rings
    && r.e < rings && r.f < rings && r.g < rings && r.h < rings
  }

  function Low(s: Tables, r: Rings): int
    requires |s.t1| == SIZE && Total(r) < SIZE
  {
    GroupIndex(s, r.a, r.b, r.c, r.d)
  }

  function High(s: Tables, r: Rings): int
    requires |s.t1| == SIZE && Total(r) < SIZE
  {
    GroupIndex(s, r.e, r.f, r.g, r.h)
  }

  /** The place of eight ring numbers among those whose first four have the same total. */
  function Place(s: Tables, r: Rings): int
    requires |s.t1| == |s.t2| == SIZE && Total(r) < SIZE
  {
    s.t2[First(r)] * High(s, r) + Low(s, r)
  }

  /** `shellDemapper`; past the filled shells it adds -1. */
  function Demap(s: Tables, r: Rings): int
    requires |s.t1| == |s.t2| == |s.t3| == SIZE && Total(r) < SIZE
  {
    Place(s, r) + Correlate(s.t2, Total(r), First(r)) + SignedWord(s.t3[Total(r)])
  }

  /** The demapper's own arithmetic, with its loops. */
  method ShellDemapper(s: Tables, r: Rings) returns (index: int)
    requires Valid(s) && InRange(s.rings, r) && Total(r) < SIZE
    ensures index == Demap(s, r)
  {
    var a := ShellGroup(s, r.a, r.b, r.c, r.d);
    var b := ShellGroup(s, r.e, r.f, r.g, r.h);
    var sum := ShellCorrelate(s.t2, Total(r), First(r));
    index := s.t2[First(r)] * b + a + sum + SignedWord(s.t3[Total(r)]);
    if s.rings == 1 {
      index := 0;
      OneRing(s, r);
    }
  }

  /** With one ring there is nothing to decide, and the early return agrees. */
  lemma OneRing(s: Tables, r: Rings)
    requires Valid(s) && s.rings == 1 && InRange(1, r)
    ensures Demap(s, r) == 0
  {
    hide Demap;
    DemapInShell(s, r);
    OneWay(s.t1);
    assert Counts(s.t1, s.t2, 0);
    OneWay(s.t2);
  }

  lemma OneWay(t: seq<nat>)
    requires |t| == SIZE && t[0] == 1
    ensures Ways(t, 0) == 1
  {
    assert Correlate(t, 0, 1) == Correlate(t, 0, 0) + t[0] * t[0];
  }

  method ShellGroup(s: Tables, a: nat, b: nat, c: nat, d: nat) returns (index: int)
    requires Valid(s) && a + b + c + d < SIZE
    ensures index == GroupIndex(s, a, b, c, d)
  {
    var n := s.rings - 1;
    var scale: int := c;
    if c + d >= n {
      scale := n - d;
    }
    assert scale == PairIndex(s.rings, c, d);
    var base: int := a;
    if a + b >= n {
      base := n - b;
    }
    assert base == PairIndex(s.rings, a, b);
    hide PairIndex, Correlate, Tent, Counts, StartsAfter;
    var sum := ShellCorrelate(s.t1, a + b + c + d, a + b);
    index := s.t1[a + b] * scale + base + sum;
  }

  // -------------------------------------------------------------- pairs, fours, eights

  /** The least first ring a pair of this total can have. */
  function LeastFirst(rings: nat, total: nat): nat {
    if total < rings then 0 else total - rings + 1
  }

  /** The place of a pair counts the pairs of its total with a smaller first ring, which are
      those from the least first ring on. */
  lemma PairPlace(rings: nat, a: nat, b: nat, x: nat)
    requires a < rings && b < rings && x <= a + b
    ensures PairIndex(rings, a, b) == a - LeastFirst(rings, a + b)
    ensures x < rings && a + b - x < rings <==> LeastFirst(rings, a + b) <= x < rings
  {
  }

  /** Pairs of one total are numbered 0, 1, ... without gaps or repeats. */
  lemma PairInRange(rings: nat, a: nat, b: nat)
    requires a < rings && b < rings
    ensures 0 <= PairIndex(rings, a, b) < Tent(rings, a + b)
  {
  }

  lemma PairUnique(rings: nat, a: nat, b: nat, c: nat, d: nat)
    requires a < rings && b < rings && c < rings && d < rings
    requires a + b == c + d && PairIndex(rings, a, b) == PairIndex(rings, c, d)
    ensures a == c && b == d
  {
  }

  lemma TimesMonotone(base: nat, a: nat, b: nat)
    requires a <= b
    ensures base * a <= base * b
  {
  }

  lemma TwoDigits(base: nat, high: nat, low: nat, limit: nat)
    requires low < base && high < limit
    ensures 0 <= base * high + low < base * limit
  {
    TimesMonotone(base, high + 1, limit);
  }

  lemma DigitsUnique(base: nat, h: nat, l: nat, h': nat, l': nat)
    requires l < base && l' < base && base * h + l == base * h' + l'
    ensures h == h' && l == l'
  {
    if h < h' {
      TwoDigits(base, h, l, h');
    } else if h' < h {
      TwoDigits(base, h', l', h);
    }
  }

  lemma GroupPlaceInRange(s: Tables, a: nat, b: nat, c: nat, d: nat)
    requires a + b + c + d < SIZE
    requires Valid(s) && a < s.rings && b < s.rings && c < s.rings && d < s.rings
    ensures 0 <= GroupPlace(s, a, b, c, d) < Term(s.t1, a + b + c + d, a + b)
  {
    PairInRange(s.rings, a, b);
    PairInRange(s.rings, c, d);
    TwoDigits(s.t1[a + b], PairIndex(s.rings, c, d), PairIndex(s.rings, a, b), s.t1[c + d]);
  }

  lemma GroupInRange(s: Tables, a: nat, b: nat, c: nat, d: nat)
    requires Valid(s) && a < s.rings && b < s.rings && c < s.rings && d < s.rings
    requires a + b + c + d < SIZE
    ensures 0 <= GroupIndex(s, a, b, c, d) < s.t2[a + b + c + d]
  {
    hide Term, GroupPlace;
    GroupPlaceInRange(s, a, b, c, d);
    assert Counts(s.t1, s.t2, a + b + c + d);
    CorrelateMonotone(s.t1, a + b + c + d, a + b + 1, a + b + c + d + 1);
  }

  lemma GroupUnique(s: Tables, a: nat, b: nat, c: nat, d: nat, a': nat, b': nat, c': nat, d': nat)
    requires Valid(s) && a < s.rings && b < s.rings && c < s.rings && d < s.rings
    requires a' < s.rings && b' < s.rings && c' < s.rings && d' < s.rings
    requires a + b + c + d == a' + b' + c' + d' < SIZE
    requires GroupIndex(s, a, b, c, d) == GroupIndex(s, a', b', c', d')
    ensures a == a' && b == b' && c == c' && d == d'
  {
    hide GroupIndex, GroupPlace, PairIndex;
    SameSplit(s, a, b, c, d, a', b', c', d');
    SamePairs(s, a, b, c, d, a', b', c', d');
    PairUnique(s.rings, a, b, a', b');
    PairUnique(s.rings, c, d, c', d');
  }

  lemma SameSplit(s: Tables, a: nat, b: nat, c: nat, d: nat, a': nat, b': nat, c': nat, d': nat)
    requires Valid(s) && a < s.rings && b < s.rings && c < s.rings && d < s.rings
    requires a' < s.rings && b' < s.rings && c' < s.rings && d' < s.rings
    requires a + b + c + d == a' + b' + c' + d' < SIZE
    requires GroupIndex(s, a, b, c, d) == GroupIndex(s, a', b', c', d')
    ensures a + b == a' + b' && GroupPlace(s, a, b, c, d) == GroupPlace(s, a', b', c', d')
  {
    hide Term, Correlate, GroupPlace, PairIndex, Tent;
    GroupPlaceInRange(s, a, b, c, d);
    GroupPlaceInRange(s, a', b', c', d');
    PeelUnique(s.t1, a + b + c + d, a + b, GroupPlace(s, a, b, c, d), a' + b', GroupPlace(s, a', b', c', d'));
  }

  lemma SamePairs(s: Tables, a: nat, b: nat, c: nat, d: nat, a': nat, b': nat, c': nat, d': nat)
    requires Valid(s) && a < s.rings && b < s.rings && c < s.rings && d < s.rings
    requires a' < s.rings && b' < s.rings && c' < s.rings && d' < s.rings
    requires a + b == a' + b' && c + d == c' + d' && a + b + c + d < SIZE
    requires GroupPlace(s, a, b, c, d) == GroupPlace(s, a', b', c', d')
    ensures PairIndex(s.rings, a, b) == PairIndex(s.rings, a', b')
    ensures PairIndex(s.rings, c, d) == PairIndex(s.rings, c', d')
  {
    hide PairIndex, Tent;
    PairInRange(s.rings, a, b);
    PairInRange(s.rings, c, d);
    PairInRange(s.rings, a', b');
    PairInRange(s.rings, c', d');
    DigitsUnique(s.t1[a + b], PairIndex(s.rings, c, d), PairIndex(s.rings, a, b),
                 PairIndex(s.rings, c', d'), PairIndex(s.rings, a', b'));
  }

  lemma PlaceInRange(s: Tables, r: Rings)
    requires Valid(s) && InRange(s.rings, r) && Total(r) < SIZE
    ensures 0 <= Low(s, r) < s.t2[First(r)] && 0 <= High(s, r) < s.t2[Second(r)]
    ensures 0 <= Place(s, r) < Term(s.t2, Total(r), First(r))
  {
    GroupInRange(s, r.a, r.b, r.c, r.d);
    GroupInRange(s, r.e, r.f, r.g, r.h);
    TwoDigits(s.t2[First(r)], High(s, r), Low(s, r), s.t2[Second(r)]);
  }

  /** Each shell owns one block of indices, right after the smaller shells' blocks. */
  lemma DemapInShell(s: Tables, r: Rings)
    requires Valid(s) && InRange(s.rings, r) && Total(r) < s.shells
    ensures s.t3[Total(r)] <= Demap(s, r) < s.t3[Total(r)] + Ways(s.t2, Total(r))
  {
    hide Term, Place;
    PlaceInRange(s, r);
    CorrelateMonotone(s.t2, Total(r), First(r) + 1, Total(r) + 1);
  }

  lemma {:induction false} ShellsAscend(s: Tables, j: nat, k: nat)
    requires Valid(s) && j < k < s.shells
    ensures s.t3[j] + Ways(s.t2, j) <= s.t3[k]
    decreases k
  {
    assert StartsAfter(s.t2, s.t3, k - 1);
    if j + 1 < k {
      ShellsAscend(s, j, k - 1);
    }
  }

  /** The shaping law: an index never maps to a larger shell than a greater index does. */
  lemma IndexOrdersShells(s: Tables, r: Rings, r': Rings)
    requires Valid(s) && InRange(s.rings, r) && InRange(s.rings, r')
    requires Total(r) < s.shells && Total(r') < s.shells && Demap(s, r) <= Demap(s, r')
    ensures Total(r) <= Total(r')
  {
    DemapInShell(s, r);
    DemapInShell(s, r');
    if Total(r') < Total(r) {
      ShellsAscend(s, Total(r'), Total(r));
    }
  }

  /** No two points share an index. */
  lemma DemapInjective(s: Tables, r: Rings, r': Rings)
    requires Valid(s) && InRange(s.rings, r) && InRange(s.rings, r')
    requires Total(r) < s.shells && Total(r') < s.shells && Demap(s, r) == Demap(s, r')
    ensures r == r'
  {
    hide GroupIndex, Correlate;
    IndexOrdersShells(s, r, r');
    IndexOrdersShells(s, r', r);
    SamePlace(s, r, r');
    GroupUnique(s, r.a, r.b, r.c, r.d, r'.a, r'.b, r'.c, r'.d);
    GroupUnique(s, r.e, r.f, r.g, r.h, r'.e, r'.f, r'.g, r'.h);
  }

  lemma SamePlace(s: Tables, r: Rings, r': Rings)
    requires Valid(s) && InRange(s.rings, r) && InRange(s.rings, r')
    requires Total(r) == Total(r') < SIZE && Demap(s, r) == Demap(s, r')
    ensures First(r) == First(r') && Low(s, r) == Low(s, r') && High(s, r) == High(s, r')
  {
    hide Correlate, Low, High, Term;
    PlaceInRange(s, r);
    PlaceInRange(s, r');
    assert Total(r) - First(r) == Second(r) && Total(r') - First(r') == Second(r');
    PeelUnique(s.t2, Total(r), First(r), Place(s, r), First(r'), Place(s, r'));
    DigitsUnique(s.t2[First(r)], High(s, r), Low(s, r), High(s, r'), Low(s, r'));
  }

  // ------------------------------------------------------------- the order of the points

  /** `x` comes before `y` in the order of the dictionary. */
  ghost predicate LexLess(x: seq<nat>, y: seq<nat>) {
    x != [] && y != [] && (x[0] < y[0] || (x[0] == y[0] && LexLess(x[1..], y[1..])))
  }

  /** What decides the place of a point: its shell, the share of the first four rings, in each
      four the share of the first pair, and in each pair the first ring; the second four weigh
      more than the first, and in each four the second pair more than the first. */
  function Key(r: Rings): seq<nat> {
    [r.a + r.b + r.c + r.d + r.e + r.f + r.g + r.h, r.a + r.b + r.c + r.d, r.e + r.f, r.g, r.e, r.a + r.b, r.c, r.a]
  }

  /** The first of two numbers decides, and the second where the first are equal. */
  predicate Less(x: int, y: int, x': int, y': int) {
    x < x' || (x == x' && y < y')
  }

  lemma PairOrder(rings: nat, a: nat, b: nat, a': nat, b': nat)
    requires a < rings && b < rings && a' < rings && b' < rings && a + b == a' + b'
    ensures PairIndex(rings, a, b) < PairIndex(rings, a', b') <==> a < a'
    ensures PairIndex(rings, a, b) == PairIndex(rings, a', b') <==> a == a'
  {
  }

  lemma DigitsOrder(base: nat, h: nat, l: nat, h': nat, l': nat)
    requires l < base && l' < base
    ensures base * h + l < base * h' + l' <==> Less(h, l, h', l')
  {
    if h < h' {
      TwoDigits(base, h, l, h');
    } else if h' < h {
      TwoDigits(base, h', l', h);
    }
  }

  /** Positions in a correlation are ordered by term, and inside it by place. */
  lemma PeelOrder(t: seq<nat>, d: nat, m: nat, x: nat, n: nat, y: nat)
    requires m <= d < |t| && n <= d && x < Term(t, d, m) && y < Term(t, d, n)
    ensures Correlate(t, d, m) + x < Correlate(t, d, n) + y <==> Less(m, x, n, y)
  {
    hide Term;
    if m < n {
      CorrelateMonotone(t, d, m + 1, n);
    } else if n < m {
      CorrelateMonotone(t, d, n + 1, m);
    }
  }

  lemma GroupPlaceOrder(s: Tables, a: nat, b: nat, c: nat, d: nat, a': nat, b': nat, c': nat, d': nat)
    requires Valid(s) && a < s.rings && b < s.rings && c < s.rings && d < s.rings
    requires a' < s.rings && b' < s.rings && c' < s.rings && d' < s.rings
    requires a + b == a' + b' && c + d == c' + d' && a + b + c + d < SIZE
    ensures GroupPlace(s, a, b, c, d) < GroupPlace(s, a', b', c', d') <==> Less(c, a, c', a')
  {
    hide PairIndex, Tent;
    PairInRange(s.rings, a, b);
    PairInRange(s.rings, c, d);
    PairInRange(s.rings, a', b');
    PairInRange(s.rings, c', d');
    PairOrder(s.rings, a, b, a', b');
    PairOrder(s.rings, c, d, c', d');
    DigitsOrder(s.t1[a + b], PairIndex(s.rings, c, d), PairIndex(s.rings, a, b),
                PairIndex(s.rings, c', d'), PairIndex(s.rings, a', b'));
  }

  lemma GroupOrder(s: Tables, a: nat, b: nat, c: nat, d: nat, a': nat, b': nat, c': nat, d': nat)
    requires Valid(s) && a < s.rings && b < s.rings && c < s.rings && d < s.rings
    requires a' < s.rings && b' < s.rings && c' < s.rings && d' < s.rings
    requires a + b + c + d == a' + b' + c' + d' < SIZE
    ensures GroupIndex(s, a, b, c, d) < GroupIndex(s, a', b', c', d')
       <==> a + b < a' + b' || (a + b == a' + b' && Less(c, a, c', a'))
  {
    hide Term, Correlate, GroupPlace, PairIndex, Tent;
    GroupPlaceInRange(s, a, b, c, d);
    GroupPlaceInRange(s, a', b', c', d');
    PeelOrder(s.t1, a + b + c + d, a + b, GroupPlace(s, a, b, c, d), a' + b', GroupPlace(s, a', b', c', d'));
    if a + b == a' + b' {
      GroupPlaceOrder(s, a, b, c, d, a', b', c', d');
    }
  }

  /** Inside a shell: by the share of the first four, then the place of the second four,
      then the place of the first. */
  lemma PlaceOrder(s: Tables, r: Rings, r': Rings)
    requires Valid(s) && InRange(s.rings, r) && InRange(s.rings, r') && Total(r) == Total(r') < SIZE
    ensures Demap(s, r) < Demap(s, r')
       <==> First(r) < First(r') || (First(r) == First(r') && Less(High(s, r), Low(s, r), High(s, r'), Low(s, r')))
  {
    hide Correlate, Low, High, Term;
    PlaceInRange(s, r);
    PlaceInRange(s, r');
    assert Total(r) - First(r) == Second(r) && Total(r') - First(r') == Second(r');
    PeelOrder(s.t2, Total(r), First(r), Place(s, r), First(r'), Place(s, r'));
    if First(r) == First(r') {
      DigitsOrder(s.t2[First(r)], High(s, r), Low(s, r), High(s, r'), Low(s, r'));
    }
  }

  ghost predicate InShellLess(r: Rings, r': Rings) {
    || First(r) < First(r')
    || (First(r) == First(r')
        && (FourLess(r.e, r.f, r.g, r'.e, r'.f, r'.g)
            || (r.e + r.f == r'.e + r'.f && r.g == r'.g && r.e == r'.e && FourLess(r.a, r.b, r.c, r'.a, r'.b, r'.c))))
  }

  ghost predicate FourLess(a: nat, b: nat, c: nat, a': nat, b': nat, c': nat) {
    a + b < a' + b' || (a + b == a' + b' && Less(c, a, c', a'))
  }

  lemma InShellOrder(s: Tables, r: Rings, r': Rings)
    requires Valid(s) && InRange(s.rings, r) && InRange(s.rings, r') && Total(r) == Total(r') < SIZE
    ensures Demap(s, r) < Demap(s, r') <==> InShellLess(r, r')
  {
    hide GroupIndex, Demap;
    PlaceOrder(s, r, r');
    if First(r) == First(r') {
      GroupOrder(s, r.e, r.f, r.g, r.h, r'.e, r'.f, r'.g, r'.h);
      GroupOrder(s, r'.e, r'.f, r'.g, r'.h, r.e, r.f, r.g, r.h);
      GroupOrder(s, r.a, r.b, r.c, r.d, r'.a, r'.b, r'.c, r'.d);
    }
  }

  lemma LexStep(x: nat, rest: seq<nat>, y: nat, rest': seq<nat>)
    ensures LexLess([x] + rest, [y] + rest') <==> x < y || (x == y && LexLess(rest, rest'))
  {
    assert ([x] + rest)[1..] == rest && ([y] + rest')[1..] == rest';
  }

  lemma KeyTail(x: seq<nat>, u: seq<nat>, y: seq<nat>, v: seq<nat>)
    requires |x| == |y| == |u| == |v| == 3
    ensures LexLess(x + u, y + v) <==> ThreeLess(x, y) || (x == y && ThreeLess(u, v))
  {
    hide LexLess;
    LexThree(x, u, y, v);
    LexThree(u, [], v, []);
    assert u + [] == u && v + [] == v;
    LexNone();
  }

  lemma LexNone()
    ensures !LexLess([], [])
  {
  }

  ghost predicate ThreeLess(x: seq<nat>, y: seq<nat>)
    requires |x| == |y| == 3
  {
    x[0] < y[0] || (x[0] == y[0] && Less(x[1], x[2], y[1], y[2]))
  }

  lemma LexThree(x: seq<nat>, u: seq<nat>, y: seq<nat>, v: seq<nat>)
    requires |x| == |y| == 3
    ensures LexLess(x + u, y + v) <==> ThreeLess(x, y) || (x == y && LexLess(u, v))
  {
    hide LexLess;
    LexStep(x[2], u, y[2], v);
    LexStep(x[1], [x[2]] + u, y[1], [y[2]] + v);
    LexStep(x[0], [x[1]] + ([x[2]] + u), y[0], [y[1]] + ([y[2]] + v));
    assert x + u == [x[0]] + ([x[1]] + ([x[2]] + u)) && y + v == [y[0]] + ([y[1]] + ([y[2]] + v));
    assert x == y <==> x[0] == y[0] && x[1] == y[1] && x[2] == y[2];
  }

  lemma KeyOrder(r: Rings, r': Rings)
    ensures LexLess(Key(r), Key(r')) <==> Total(r) < Total(r') || (Total(r) == Total(r') && InShellLess(r, r'))
  {
    hide LexLess;
    KeyTail([r.e + r.f, r.g, r.e], [r.a + r.b, r.c, r.a], [r'.e + r'.f, r'.g, r'.e], [r'.a + r'.b, r'.c, r'.a]);
    var k, k' := [r.e + r.f, r.g, r.e] + [r.a + r.b, r.c, r.a], [r'.e + r'.f, r'.g, r'.e] + [r'.a + r'.b, r'.c, r'.a];
    LexStep(First(r), k, First(r'), k');
    LexStep(Total(r), [First(r)] + k, Total(r'), [First(r')] + k');
    assert Key(r) == [Total(r)] + ([First(r)] + k) && Key(r') == [Total(r')] + ([First(r')] + k');
  }

  /** The index is the place in the order of keys: on the filled shells a point has the smaller
      index exactly when its key comes first. */
  lemma IndexOrder(s: Tables, r: Rings, r': Rings)
    requires Valid(s) && InRange(s.rings, r) && InRange(s.rings, r')
    requires Total(r) < s.shells && Total(r') < s.shells
    ensures Demap(s, r) < Demap(s, r') <==> LexLess(Key(r), Key(r'))
  {
    hide Demap, LexLess, InShellLess, Total, Key;
    KeyOrder(r, r');
    if Total(r) == Total(r') {
      InShellOrder(s, r, r');
    } else {
      if Demap(s, r) <= Demap(s, r') {
        IndexOrdersShells(s, r, r');
      }
      if Demap(s, r') <= Demap(s, r) {
        IndexOrdersShells(s, r', r);
      }
    }
  }

  // -------------------------------------------------------------------------- mapping

  /** Seven halvings of [0, 128): the last shell that starts at or below the index. */
  method FindShell(s: Tables, target: nat) returns (lo: nat)
    requires Valid(s) && target < Capacity(s) && target < UNUSED
    ensures lo < s.shells && s.t3[lo] <= target < s.t3[lo] + Ways(s.t2, lo)
  {
    lo := 0;
    var mid, hi, gap := 64, SIZE, SIZE;
    for i := 0 to 7
      invariant 0 <= lo < hi <= SIZE && hi - lo == gap && mid == (lo + hi) / 2
      invariant gap == [128, 64, 32, 16, 8, 4, 2, 1][i]
      invariant lo < s.shells && s.t3[lo] <= target
      invariant hi < SIZE ==> s.t3[hi] > target
    {
      if s.t3[mid] > target {
        hi := mid;
      } else {
        lo := mid;
      }
      mid := (lo + hi) / 2;
      gap := gap / 2;
    }
    assert hi == lo + 1;
    assert lo < s.shells - 1 ==> StartsAfter(s.t2, s.t3, lo);
  }

  method UnpackPair(rings: nat, total: nat, index: nat) returns (a: nat, b: nat)
    requires index < Tent(rings, total)
    ensures a < rings && b < rings && a + b == total && PairIndex(rings, a, b) == index
    ensures a == index + LeastFirst(rings, total)
  {
    if total >= rings {
      b := rings - index - 1;
      a := total - b;
    } else {
      a := index;
      b := total - index;
    }
  }

  /** Quotient and remainder of one signed division. */
  method Divide(x: nat, base: nat, limit: nat) returns (high: nat, low: nat)
    requires x < base * limit
    ensures low < base && high < limit && base * high + low == x
  {
    high, low := x / base, x % base;
    if high >= limit {
      TimesMonotone(base, limit, high);
      assert false;
    }
  }

  method UnpackGroup(s: Tables, total: nat, index: nat) returns (a: nat, b: nat, c: nat, d: nat)
    requires Valid(s) && total < SIZE && index < s.t2[total]
    ensures a < s.rings && b < s.rings && c < s.rings && d < s.rings && a + b + c + d == total
    ensures GroupIndex(s, a, b, c, d) == index
  {
    hide PairIndex;
    assert Counts(s.t1, s.t2, total);
    var n, rem := Peel(s.t1, total, index);
    var high, low := Divide(rem, s.t1[n], s.t1[total - n]);
    assert s.t1[n] == Tent(s.rings, n) && s.t1[total - n] == Tent(s.rings, total - n);
    a, b := UnpackPair(s.rings, n, low);
    c, d := UnpackPair(s.rings, total - n, high);
  }

  /** The index arithmetic of `modulatevector`: every index the tables reach is mapped to
      eight ring numbers that demap to it. */
  method Map(s: Tables, target: nat) returns (r: Rings)
    requires Valid(s) && target < Capacity(s) && target < UNUSED
    ensures InRange(s.rings, r) && Total(r) < s.shells
    ensures Demap(s, r) == target
  {
    hide GroupIndex;
    var shell := FindShell(s, target);
    var n, rem := Peel(s.t2, shell, target - s.t3[shell]);
    var high, low := Divide(rem, s.t2[n], s.t2[shell - n]);
    var a, b, c, d := UnpackGroup(s, n, low);
    var e, f, g, h := UnpackGroup(s, shell - n, high);
    r := Rings(a, b, c, d, e, f, g, h);
  }

  /** A point comes back from its index exactly when it is on a filled shell; the index of any
      other, if it can be mapped at all, maps to another point that shares it. */
  method MapInverts(s: Tables, r: Rings) returns (r': Rings)
    requires Valid(s) && InRange(s.rings, r) && Total(r) < SIZE && Demap(s, r) < UNUSED
    requires Total(r) < s.shells || 0 <= Demap(s, r) < Capacity(s)
    ensures InRange(s.rings, r') && Total(r') < s.shells && Demap(s, r') == Demap(s, r)
    ensures r' == r <==> Total(r) < s.shells
  {
    hide Demap, Ways;
    if Total(r) < s.shells {
      DemapInCapacity(s, r);
    }
    r' := Map(s, Demap(s, r));
    if Total(r) < s.shells {
      DemapInjective(s, r, r');
    }
  }

  lemma DemapInCapacity(s: Tables, r: Rings)
    requires Valid(s) && InRange(s.rings, r) && Total(r) < s.shells
    ensures 0 <= Demap(s, r) < Capacity(s)
  {
    hide Demap, Ways;
    DemapInShell(s, r);
    if Total(r) < s.shells - 1 {
      ShellsAscend(s, Total(r), s.shells - 1);
    }
  }

  /** One of the points of shell 56 whose first four rings are zero. */
  ghost predicate IsFar(r: Rings) {
    First(r) == 0 && r.e == 6 && r.f == 16 && r.g == 17 && r.h == 17
  }

  /** With eighteen rings the table ends before shell 56, and a point there shares index zero
      with the origin. */
  lemma PastShellsCollide(s: Tables, origin: Rings, far: Rings)
    requires Valid(s) && s.rings == 18 && s.shells == 56 && Total(origin) == 0 && IsFar(far)
    ensures InRange(18, origin) && InRange(18, far) && Total(far) == 56
    ensures Demap(s, origin) == 0 == Demap(s, far)
  {
    hide Demap, Valid;
    OriginIndex(s, origin);
    FarIndex(s, far);
  }

  lemma OriginGroup(s: Tables, a: nat, b: nat, c: nat, d: nat)
    requires Valid(s) && s.rings == 18 && a + b + c + d == 0
    ensures GroupIndex(s, a, b, c, d) == 0 && s.t2[0] == 1
  {
    OneWay(s.t1);
    assert Counts(s.t1, s.t2, 0);
    CorrelateStep(s.t1, a + b + c + d, a + b);
    hide Correlate;
    assert PairIndex(18, a, b) == 0 && PairIndex(18, c, d) == 0;
  }

  lemma FarGroup(s: Tables, e: nat, f: nat, g: nat, h: nat)
    requires Valid(s) && s.rings == 18 && e == 6 && f == 16 && g == 17 && h == 17
    ensures GroupIndex(s, e, f, g, h) == 1
  {
    FrontIsZero(s.t1, s.rings, 68 - (e + f + g + h), e + f);
    hide Correlate;
    assert PairIndex(s.rings, e, f) == 1 && PairIndex(s.rings, g, h) == 0;
  }

  /** With nothing in the first group only the second group and the shell count. */
  lemma SecondGroupOnly(s: Tables, r: Rings)
    requires |s.t1| == |s.t2| == |s.t3| == SIZE && Total(r) < SIZE
    requires First(r) == 0 && Low(s, r) == 0 && s.t2[0] == 1
    ensures Demap(s, r) == High(s, r) + SignedWord(s.t3[Total(r)])
  {
    hide Low, High, Correlate, Total;
    CorrelateStep(s.t2, Total(r), 0);
  }

  lemma OriginIndex(s: Tables, r: Rings)
    requires Valid(s) && s.rings == 18 && Total(r) == 0
    ensures Demap(s, r) == 0
  {
    hide GroupIndex, Correlate, Demap;
    OriginGroup(s, r.a, r.b, r.c, r.d);
    OriginGroup(s, r.e, r.f, r.g, r.h);
    SecondGroupOnly(s, r);
  }

  lemma FarIndex(s: Tables, r: Rings)
    requires Valid(s) && s.rings == 18 && s.shells == 56 && IsFar(r)
    ensures Demap(s, r) == 0
  {
    hide GroupIndex, Correlate, Demap;
    OriginGroup(s, r.a, r.b, r.c, r.d);
    FarGroup(s, r.e, r.f, r.g, r.h);
    SecondGroupOnly(s, r);
  }
}

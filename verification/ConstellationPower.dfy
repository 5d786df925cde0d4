/** The mean power of a mapped frame, computed from six digits instead of from every
    codeword, and proved to be the mean over every codeword. */
module ConstellationPower {
  import opened Numbers
  import opened Radix
  import ModulusCoder

  const POSITIONS: nat := 6

  // ---------------------------------------------------------------------- counting

  /** How many of the codewords below `n` have digit `j` at place value `p`, radix `c`. */
  function Count(n: nat, p: nat, c: nat, j: nat): nat
    requires p >= 1 && c >= 1
  {
    if n == 0 then 0 else Count(n - 1, p, c, j) + if (n - 1) / p % c == j then 1 else 0
  }

  /** The same for the codewords up to and including `v`, in closed form: whole turns of
      the digit, and the part of a turn that `v` is in. */
  function UpTo(v: nat, p: nat, c: nat, j: nat): nat
    requires p >= 1 && c >= 1
  {
    var r := v / p;
    Turns(p, r / c) + if r % c > j then p else if r % c == j then v % p + 1 else 0
  }

  function Turns(p: nat, q: nat): nat {
    p * q
  }

  lemma TurnsStep(p: nat, q: nat)
    requires q >= 1
    ensures Turns(p, q) == Turns(p, q - 1) + p
  {
  }

  /** Division by `p` one step back. */
  lemma StepBack(v: nat, p: nat)
    requires v >= 1 && p >= 1
    ensures v % p > 0 ==> (v - 1) / p == v / p && (v - 1) % p == v % p - 1
    ensures v % p == 0 ==> v / p >= 1 && (v - 1) / p == v / p - 1 && (v - 1) % p == p - 1
  {
    var q, u := v / p, v % p;
    Euclid(v, p);
    if u > 0 {
      DivUnique(v - 1, p, q, u - 1);
    } else {
      assert q >= 1;
      assert v - 1 == (q - 1) * p + (p - 1);
      DivUnique(v - 1, p, q - 1, p - 1);
    }
  }

  lemma UpToStep(v: nat, p: nat, c: nat, j: nat)
    requires v >= 1 && p >= 1 && c >= 1 && j < c
    ensures UpTo(v, p, c, j) == UpTo(v - 1, p, c, j) + if v / p % c == j then 1 else 0
  {
    StepBack(v, p);
    var r := v / p;
    if v % p == 0 {
      StepBack(r, c);
      if r % c == 0 {
        TurnsStep(p, r / c);
      }
    }
    hide Turns;
  }

  lemma {:induction false} CountsUpTo(v: nat, p: nat, c: nat, j: nat)
    requires p >= 1 && c >= 1 && j < c
    ensures Count(v + 1, p, c, j) == UpTo(v, p, c, j)
  {
    if v == 0 {
      assert Count(0, p, c, j) == 0;
      DivUnique(0, p, 0, 0);
      DivUnique(0, c, 0, 0);
    } else {
      CountsUpTo(v - 1, p, c, j);
      UpToStep(v, p, c, j);
      hide UpTo;
      assert Count(v, p, c, j) == UpTo(v - 1, p, c, j);
    }
  }

  // -------------------------------------------------------------------- one fraction

  /** The share of position `i` that the code gives to point `j`: three arms against the
      digit of the last codeword. */
  function Fraction(n: nat, place: nat, digit: nat, rest: nat, next: nat, j: nat): real
    requires n >= 1
  {
    if digit > j then place as real / n as real * (next + 1) as real
    else if digit == j then 1.0 - 1.0 / n as real * place as real * (rest - next) as real
    else place as real / n as real * next as real
  }

  function Part(x: real, times: int): real {
    x * times as real
  }

  lemma PartSum(a: real, b: real, n: int)
    ensures Part(a + b, n) == Part(a, n) + Part(b, n)
  {
  }

  lemma Cancel(p: real, n: real, x: real)
    requires n != 0.0
    ensures p / n * x * n == p * x
  {
    assert p / n * n == p;
    assert p / n * x * n == p / n * n * x;
  }

  lemma CancelFromOne(p: real, n: real, r: real, q: real)
    requires n != 0.0
    ensures (1.0 - 1.0 / n * p * (r - q)) * n == n - p * r + p * q
  {
    var x := r - q;
    assert 1.0 / n * n == 1.0;
    assert 1.0 / n * p * x * n == 1.0 / n * n * (p * x);
    assert p * x == p * r - p * q;
  }

  lemma Times(p: nat, x: nat)
    ensures p as real * x as real == Turns(p, x) as real
  {
  }

  /** The middle arm: everything the other points do not take. */
  lemma Remainder(v: nat, p: nat, c: nat)
    requires p >= 1 && c >= 1
    ensures v + 1 - Turns(p, v / p) + Turns(p, v / p / c) == Turns(p, v / p / c) + v % p + 1
  {
    Euclid(v, p);
  }

  /** How many codewords the code takes point `j` to have, arm by arm. */
  function Weight(n: nat, place: nat, digit: nat, rest: nat, next: nat, j: nat): int {
    if digit > j then Turns(place, next + 1)
    else if digit == j then n - Turns(place, rest) + Turns(place, next)
    else Turns(place, next)
  }

  /** A fraction times the number of codewords is the weight. */
  lemma FractionScaled(n: nat, p: nat, digit: nat, r: nat, q: nat, j: nat)
    requires n >= 1
    ensures Part(Fraction(n, p, digit, r, q, j), n) == Weight(n, p, digit, r, q, j) as real
  {
    hide Turns;
    if digit > j {
      Cancel(p as real, n as real, (q + 1) as real);
      Times(p, q + 1);
    } else if digit == j {
      CancelFromOne(p as real, n as real, r as real, q as real);
      Times(p, r);
      Times(p, q);
    } else {
      Cancel(p as real, n as real, q as real);
      Times(p, q);
    }
  }

  /** For a true digit the weight is the count. */
  lemma WeightIsCount(n: nat, p: nat, c: nat, j: nat)
    requires n >= 1 && p >= 1 && c >= 1 && j < c
    ensures var r := (n - 1) / p;
            Weight(n, p, r % c, r, r / c, j) == Count(n, p, c, j)
  {
    hide Turns, Count;
    var v := n - 1;
    var r := v / p;
    var q := r / c;
    CountsUpTo(v, p, c, j);
    Remainder(v, p, c);
    TurnsStep(p, q + 1);
  }

  /** Each fraction is the exact share of codewords with that digit there. */
  lemma FractionIsShare(n: nat, p: nat, c: nat, j: nat)
    requires n >= 1 && p >= 1 && c >= 1 && j < c
    ensures var r := (n - 1) / p;
            Part(Fraction(n, p, r % c, r, r / c, j), n) == Count(n, p, c, j) as real
  {
    hide Fraction, Weight, Count;
    var r := (n - 1) / p;
    WeightIsCount(n, p, c, j);
    FractionScaled(n, p, r % c, r, r / c, j);
  }

  // ------------------------------------------------------------- energies of codewords

  /** The squared level of each point, position by position. */
  type Levels = seq<seq<real>>

  ghost predicate Fits(levels: Levels, s: seq<nat>) {
    && |s| == POSITIONS == |levels|
    && forall i | 0 <= i < POSITIONS :: 1 <= s[i] < WORD && |levels[i]| == s[i]
  }

  lemma FitsNonzero(levels: Levels, s: seq<nat>)
    requires Fits(levels, s)
    ensures Nonzero(s) && |s| == POSITIONS && forall i | 0 <= i < POSITIONS :: 1 <= s[i] < WORD
  {
  }

  /** The energy a codeword puts into position `i`. */
  ghost function At(levels: Levels, s: seq<nat>, i: nat, v: nat): real
    requires Fits(levels, s) && i < POSITIONS
  {
    levels[i][Digit(v, s, i)]
  }

  /** Over the first `k` positions of one codeword. */
  ghost function Frame(levels: Levels, s: seq<nat>, k: nat, v: nat): real
    requires Fits(levels, s) && k <= POSITIONS
  {
    if k == 0 then 0.0 else Frame(levels, s, k - 1, v) + At(levels, s, k - 1, v)
  }

  /** Over the first `k` positions of all codewords below `n`. */
  ghost function All(levels: Levels, s: seq<nat>, k: nat, n: nat): real
    requires Fits(levels, s) && k <= POSITIONS
  {
    if n == 0 then 0.0 else All(levels, s, k, n - 1) + Frame(levels, s, k, n - 1)
  }

  /** One position over all codewords below `n`. */
  ghost function Column(levels: Levels, s: seq<nat>, i: nat, n: nat): real
    requires Fits(levels, s) && i < POSITIONS
  {
    if n == 0 then 0.0 else Column(levels, s, i, n - 1) + At(levels, s, i, n - 1)
  }

  /** The first `m` points of a position, each as often as codewords use it. */
  ghost function ByPoint(level: seq<real>, m: nat, n: nat, p: nat, c: nat): real
    requires m <= |level| && p >= 1 && c >= 1
  {
    if m == 0 then 0.0 else ByPoint(level, m - 1, n, p, c) + Part(level[m - 1], Count(n, p, c, m - 1))
  }

  lemma {:induction false} AddColumn(levels: Levels, s: seq<nat>, k: nat, n: nat)
    requires Fits(levels, s) && k < POSITIONS
    ensures All(levels, s, k + 1, n) == All(levels, s, k, n) + Column(levels, s, k, n)
  {
    if n > 0 {
      AddColumn(levels, s, k, n - 1);
      hide At;
      assert Frame(levels, s, k + 1, n - 1) == Frame(levels, s, k, n - 1) + At(levels, s, k, n - 1);
    }
  }

  lemma {:induction false} NoPositions(levels: Levels, s: seq<nat>, n: nat)
    requires Fits(levels, s)
    ensures All(levels, s, 0, n) == 0.0
  {
    if n > 0 {
      NoPositions(levels, s, n - 1);
    }
  }

  /** One more codeword adds the level of its digit and no other. */
  lemma {:induction false} ByPointStep(level: seq<real>, m: nat, n: nat, p: nat, c: nat)
    requires m <= |level| && p >= 1 && c >= 1 && n >= 1
    ensures var d := (n - 1) / p % c;
            ByPoint(level, m, n, p, c) == ByPoint(level, m, n - 1, p, c) + if d < m then level[d] else 0.0
  {
    if m > 0 {
      ByPointStep(level, m - 1, n, p, c);
      CountStep(n, p, c, m - 1);
      OneMore(level[m - 1], Count(n - 1, p, c, m - 1));
      hide Count, Part;
    }
  }

  lemma CountStep(n: nat, p: nat, c: nat, j: nat)
    requires p >= 1 && c >= 1 && n >= 1
    ensures Count(n, p, c, j) == Count(n - 1, p, c, j) + if (n - 1) / p % c == j then 1 else 0
  {
  }

  lemma OneMore(x: real, n: nat)
    ensures Part(x, n + 1) == Part(x, n) + x
  {
    assert (n + 1) as real == n as real + 1.0;
  }

  lemma {:induction false} ByPointNone(level: seq<real>, m: nat, p: nat, c: nat)
    requires m <= |level| && p >= 1 && c >= 1
    ensures ByPoint(level, m, 0, p, c) == 0.0
  {
    if m > 0 {
      ByPointNone(level, m - 1, p, c);
    }
  }

  /** Adding up codeword by codeword is adding up point by point. */
  lemma {:induction false} ColumnByPoint(levels: Levels, s: seq<nat>, i: nat, n: nat)
    requires Fits(levels, s) && i < POSITIONS
    ensures Place(s, i) >= 1
    ensures Column(levels, s, i, n) == ByPoint(levels[i], s[i], n, Place(s, i), s[i])
  {
    FitsNonzero(levels, s);
    RestIsQuotient(0, s, i);
    if n == 0 {
      ByPointNone(levels[i], s[i], Place(s, i), s[i]);
    } else {
      ColumnByPoint(levels, s, i, n - 1);
      ByPointStep(levels[i], s[i], n, Place(s, i), s[i]);
      RestIsQuotient(n - 1, s, i);
      hide ByPoint, Rest;
    }
  }

  // ------------------------------------------------------------------------ the object

  class Power {
    var codewordCount: nat
    var remaining: seq<nat>
    var modulus: seq<nat>
    var placeValue: seq<nat>

    constructor ()
      ensures codewordCount == 0 && remaining == [] && modulus == [] && placeValue == []
    {
      codewordCount, remaining, modulus, placeValue := 0, [], [], [];
    }

    /** The odometer as laid out: five true digits, and a sixth that is cut to a word. */
    ghost predicate Laid(s: seq<nat>)
      reads this
    {
      && |s| == POSITIONS && Nonzero(s) && codewordCount >= 1
      && |remaining| == POSITIONS + 1 && |modulus| == POSITIONS && |placeValue| == POSITIONS
      && (forall i | 0 <= i < POSITIONS :: remaining[i] == Rest(codewordCount - 1, s, i))
      && (forall i | 0 <= i < POSITIONS :: placeValue[i] == Place(s, i))
      && (forall i | 0 <= i < POSITIONS - 1 :: modulus[i] == Digit(codewordCount - 1, s, i))
      && modulus[5] == remaining[5] % WORD
      && remaining[6] == (remaining[5] - modulus[5]) / s[5]
    }

    /** `calcModulusParameters` with its digit and place-value loops. */
    method CalcModulusLooped(s: seq<nat>, count: nat)
      requires |s| == POSITIONS && count >= 1 && forall i | 0 <= i < POSITIONS :: 1 <= s[i] < WORD
      modifies this
      ensures Laid(s) && codewordCount == count
    {
      hide Rest, Digit, Place;
      codewordCount := count;
      remaining, modulus := FiveDigits(count - 1, s);
      modulus := modulus + [remaining[5] % WORD];
      remaining := remaining + [(remaining[5] - modulus[5]) / s[5]];
      placeValue := Places(s);
    }

    static method FiveDigits(v: nat, s: seq<nat>) returns (rests: seq<nat>, digits: seq<nat>)
      requires |s| == POSITIONS && forall i | 0 <= i < POSITIONS :: 1 <= s[i] < WORD
      ensures |rests| == POSITIONS && forall k | 0 <= k < POSITIONS :: rests[k] == Rest(v, s, k)
      ensures |digits| == POSITIONS - 1 && forall k | 0 <= k < POSITIONS - 1 :: digits[k] == Digit(v, s, k)
    {
      hide Rest, Digit, Place;
      RestStart(v, s);
      rests, digits := [v], [];
      for i := 0 to POSITIONS - 1
        invariant |rests| == i + 1 && |digits| == i
        invariant forall k | 0 <= k <= i :: rests[k] == Rest(v, s, k)
        invariant forall k | 0 <= k < i :: digits[k] == Digit(v, s, k)
      {
        var next, digit := Divide(v, s, i, rests[i]);
        digits := digits + [digit];
        rests := rests + [next];
      }
    }

    static method Places(s: seq<nat>) returns (places: seq<nat>)
      requires |s| == POSITIONS
      ensures |places| == POSITIONS && forall k | 0 <= k < POSITIONS :: places[k] == Place(s, k)
    {
      places := [1];
      var product := 1;
      for i := 1 to POSITIONS
        invariant |places| == i && product == Place(s, i - 1)
        invariant forall k | 0 <= k < i :: places[k] == Place(s, k)
      {
        assert Place(s, i) == Place(s, i - 1) * s[i - 1];
        hide Place;
        product := product * s[i - 1];
        places := places + [product];
      }
    }

    /** `calcModulusParameters` with both loops written out. */
    method CalcModulusParameters(s: seq<nat>, count: nat)
      requires |s| == POSITIONS && count >= 1 && forall i | 0 <= i < POSITIONS :: 1 <= s[i] < WORD
      modifies this
      ensures Laid(s) && codewordCount == count
    {
      hide Rest, Digit, Place;
      codewordCount := count;
      remaining, modulus := FiveWritten(count - 1, s);
      modulus := modulus + [remaining[5] % WORD];
      remaining := remaining + [(remaining[5] - modulus[5]) / s[5]];
      placeValue := PlacesWritten(s);
    }

    static method FiveWritten(v: nat, s: seq<nat>) returns (rests: seq<nat>, digits: seq<nat>)
      requires |s| == POSITIONS && forall i | 0 <= i < POSITIONS :: 1 <= s[i] < WORD
      ensures |rests| == POSITIONS && forall k | 0 <= k < POSITIONS :: rests[k] == Rest(v, s, k)
      ensures |digits| == POSITIONS - 1 && forall k | 0 <= k < POSITIONS - 1 :: digits[k] == Digit(v, s, k)
    {
      hide Rest, Digit, Place;
      RestStart(v, s);
      var r1, m0 := Divide(v, s, 0, v);
      var r2, m1 := Divide(v, s, 1, r1);
      var r3, m2 := Divide(v, s, 2, r2);
      var r4, m3 := Divide(v, s, 3, r3);
      var r5, m4 := Divide(v, s, 4, r4);
      rests := [v, r1, r2, r3, r4, r5];
      digits := [m0, m1, m2, m3, m4];
    }

    static method PlacesWritten(s: seq<nat>) returns (places: seq<nat>)
      requires |s| == POSITIONS
      ensures |places| == POSITIONS && forall k | 0 <= k < POSITIONS :: places[k] == Place(s, k)
    {
      assert Place(s, 0) == 1;
      hide Place;
      var p1 := Multiply(s, 0, 1);
      var p2 := Multiply(s, 1, p1);
      var p3 := Multiply(s, 2, p2);
      var p4 := Multiply(s, 3, p3);
      var p5 := Multiply(s, 4, p4);
      places := [1, p1, p2, p3, p4, p5];
    }

    /** One remainder and one division, the remainder cut to a word. */
    static method Divide(ghost v: nat, s: seq<nat>, i: nat, rest: nat) returns (next: nat, digit: nat)
      requires |s| == POSITIONS && i < POSITIONS && forall i | 0 <= i < POSITIONS :: 1 <= s[i] < WORD
      requires Nonzero(s) && rest == Rest(v, s, i)
      ensures digit == Digit(v, s, i) && next == Rest(v, s, i + 1)
    {
      ModulusCoder.DivideStep(v, s, i, rest);
      hide Rest, Digit;
      digit := rest % s[i] % WORD;
      next := (rest - digit) / s[i];
    }

    static method Multiply(s: seq<nat>, i: nat, product: nat) returns (next: nat)
      requires i < |s| && product == Place(s, i)
      ensures next == Place(s, i + 1)
    {
      next := product * s[i];
    }

    /** `getPower`: five positions give their mean over every codeword and the sixth what
        its cut digit makes of it; with no more codewords than frames that is a mean too. */
    method GetPower(s: seq<nat>, count: nat, levels: Levels) returns (power: real)
      requires count >= 1 && Fits(levels, s)
      modifies this
      ensures Laid(s) && codewordCount == count
      ensures power * 6.0 * count as real == All(levels, s, 5, count) + TopColumn(levels, s, count)
      ensures count <= Place(s, POSITIONS) ==> power * 6.0 * count as real == All(levels, s, POSITIONS, count)
    {
      hide All, Column, Place, Laid, Fits, TopColumn, LaidColumn, Part;
      FitsNonzero(levels, s);
      power := 0.0;
      PartNone(count);
      CalcModulusParameters(s, count);
      NoPositions(levels, s, count);
      for i := 0 to POSITIONS - 1
        invariant Laid(s) && codewordCount == count
        invariant Part(power, count) == All(levels, s, i, count)
      {
        var sum := AddPosition(s, levels, i, power);
        TrueColumn(s, levels, i);
        AddColumn(levels, s, i, count);
        power := sum;
      }
      power := AddPosition(s, levels, 5, power);
      TopColumnLaid(s, levels);
      if count <= Place(s, POSITIONS) {
        TopColumnTrue(levels, s, count);
        AddColumn(levels, s, 5, count);
      }
      ghost var total := power;
      power := power * (1.0 / 6.0);
      Sixth(total, count);
    }

    /** The inner loop: one position's points, each with its fraction. */
    method AddPosition(s: seq<nat>, levels: Levels, i: nat, start: real) returns (power: real)
      requires Laid(s) && Fits(levels, s) && i < POSITIONS
      ensures Part(power, codewordCount) == Part(start, codewordCount) + LaidColumn(s, levels, i)
    {
      hide Fraction, ByWeight, Weight, Part, Place, Rest, Digit;
      ghost var n, p, d := codewordCount, placeValue[i], modulus[i];
      ghost var r, q := remaining[i], remaining[i + 1];
      NoWeight(levels[i], n, p, d, r, q);
      PartNone(n);
      power := start;
      ghost var part := 0.0;
      for j := 0 to s[i]
        invariant power == start + part
        invariant Part(part, n) == ByWeight(levels[i], j, n, p, d, r, q)
      {
        var fraction := Fraction(codewordCount, placeValue[i], modulus[i], remaining[i], remaining[i + 1], j);
        var energy := levels[i][j] * fraction;
        AddPoint(levels[i], j, n, p, d, r, q, part, fraction, energy);
        power := power + energy;
        part := part + energy;
      }
      PartSum(start, part, n);
    }

    /** A position's energy as the laid-out digits weigh its points. */
    ghost function LaidColumn(s: seq<nat>, levels: Levels, i: nat): real
      reads this
      requires Laid(s) && Fits(levels, s) && i < POSITIONS
    {
      ByWeight(levels[i], s[i], codewordCount, placeValue[i], modulus[i], remaining[i], remaining[i + 1])
    }

    /** Below the sixth position the digits are true and the column is the codewords' own. */
    lemma TrueColumn(s: seq<nat>, levels: Levels, i: nat)
      requires Laid(s) && Fits(levels, s) && i < POSITIONS - 1
      ensures LaidColumn(s, levels, i) == Column(levels, s, i, codewordCount)
    {
      hide ByWeight, ByPoint, Column;
      RestIsQuotient(codewordCount - 1, s, i);
      ColumnByPoint(levels, s, i, codewordCount);
      ByWeightIsByPoint(levels[i], s[i], codewordCount, Place(s, i), s[i], remaining[i], modulus[i], remaining[i + 1]);
    }

    lemma TopColumnLaid(s: seq<nat>, levels: Levels)
      requires Laid(s) && Fits(levels, s)
      ensures LaidColumn(s, levels, 5) == TopColumn(levels, s, codewordCount)
    {
      hide ByWeight;
    }

  }

  /** The sixth digit as laid out: the rest, its low word, and what is carried on. */
  ghost function TopRest(s: seq<nat>, n: nat): nat
    requires |s| == POSITIONS && Nonzero(s) && n >= 1
  {
    Rest(n - 1, s, 5)
  }

  ghost function TopDigit(s: seq<nat>, n: nat): nat
    requires |s| == POSITIONS && Nonzero(s) && n >= 1
  {
    TopRest(s, n) % WORD
  }

  ghost function TopNext(s: seq<nat>, n: nat): nat
    requires |s| == POSITIONS && Nonzero(s) && n >= 1
  {
    (TopRest(s, n) - TopDigit(s, n)) / s[5]
  }

  /** The sixth position's energy over `n` codewords, as the cut digit weighs its points. */
  ghost function TopColumn(levels: Levels, s: seq<nat>, n: nat): real
    requires Fits(levels, s) && Nonzero(s) && n >= 1
  {
    ByWeight(levels[5], s[5], n, Place(s, 5), TopDigit(s, n), TopRest(s, n), TopNext(s, n))
  }

  /** With no more codewords than frames the cut digit is a true one. */
  lemma TrueTop(s: seq<nat>, n: nat)
    requires |s| == POSITIONS && Nonzero(s) && s[5] < WORD && 1 <= n <= Place(s, POSITIONS)
    ensures TopDigit(s, n) == TopRest(s, n) == TopRest(s, n) % s[5] && TopNext(s, n) == 0 == TopRest(s, n) / s[5]
  {
    hide Rest, Place;
    TopFits(n - 1, s);
    SmallMod(TopRest(s, n), WORD);
    DivUnique(0, s[5], 0, 0);
  }

  lemma TopColumnTrue(levels: Levels, s: seq<nat>, n: nat)
    requires Fits(levels, s) && Nonzero(s) && 1 <= n <= Place(s, POSITIONS)
    ensures TopColumn(levels, s, n) == Column(levels, s, 5, n)
  {
    hide ByWeight, ByPoint, Column;
    TrueTop(s, n);
    RestIsQuotient(n - 1, s, 5);
    ColumnByPoint(levels, s, 5, n);
    hide Rest, Place;
    ByWeightIsByPoint(levels[5], s[5], n, Place(s, 5), s[5], TopRest(s, n), TopDigit(s, n), TopNext(s, n));
  }

  /** The first `m` points of a position, each with its weight. */
  ghost function ByWeight(level: seq<real>, m: nat, n: nat, place: nat, digit: nat, rest: nat, next: nat): real
    requires m <= |level|
  {
    if m == 0 then 0.0
    else ByWeight(level, m - 1, n, place, digit, rest, next)
         + Part(level[m - 1], Weight(n, place, digit, rest, next, m - 1))
  }

  lemma NoWeight(level: seq<real>, n: nat, place: nat, digit: nat, rest: nat, next: nat)
    ensures ByWeight(level, 0, n, place, digit, rest, next) == 0.0
  {
  }

  lemma {:induction false} ByWeightIsByPoint(
      level: seq<real>, m: nat, n: nat, p: nat, c: nat, r: nat, digit: nat, next: nat)
    requires m <= |level| && m <= c && n >= 1 && p >= 1 && c >= 1
    requires r == (n - 1) / p && digit == r % c && next == r / c
    ensures ByWeight(level, m, n, p, digit, r, next) == ByPoint(level, m, n, p, c)
  {
    if m > 0 {
      hide Count, Weight, Part;
      ByWeightIsByPoint(level, m - 1, n, p, c, r, digit, next);
      WeightIsCount(n, p, c, m - 1);
    }
  }

  lemma AddPoint(
      level: seq<real>, j: nat, n: nat, p: nat, digit: nat, r: nat, q: nat,
      part: real, fraction: real, energy: real)
    requires j < |level| && n >= 1
    requires Part(part, n) == ByWeight(level, j, n, p, digit, r, q)
    requires fraction == Fraction(n, p, digit, r, q, j) && energy == level[j] * fraction
    ensures Part(part + energy, n) == ByWeight(level, j + 1, n, p, digit, r, q)
  {
    hide Fraction, Weight, Part;
    FractionScaled(n, p, digit, r, q, j);
    Scale(level[j], fraction, energy, n, Weight(n, p, digit, r, q, j));
    PartSum(part, energy, n);
  }

  lemma RestStart(v: nat, s: seq<nat>)
    requires Nonzero(s)
    ensures Rest(v, s, 0) == v
  {
  }

  lemma Scale(level: real, fraction: real, energy: real, n: nat, count: int)
    requires Part(fraction, n) == count as real && energy == level * fraction
    ensures Part(energy, n) == Part(level, count)
  {
    assert level * fraction * n as real == level * (fraction * n as real);
  }

  lemma Sixth(total: real, n: nat)
    ensures total * (1.0 / 6.0) * 6.0 * n as real == Part(total, n)
  {
  }

  lemma PartNone(n: nat)
    ensures Part(0.0, n) == 0.0
  {
  }

  lemma TopFits(v: nat, s: seq<nat>)
    requires |s| == POSITIONS && Nonzero(s) && v < Place(s, POSITIONS)
    ensures Rest(v, s, 5) < s[5] && Rest(v, s, 5) / s[5] == 0 && Rest(v, s, 5) % s[5] == Rest(v, s, 5)
  {
    RestIsQuotient(v, s, POSITIONS);
    DivUnique(v, Place(s, POSITIONS), 0, v);
    Euclid(Rest(v, s, 5), s[5]);
  }

  // --------------------------------------------------------------- the truncated digit

  /** The first `m` fractions of a position added up. */
  ghost function Shares(n: nat, place: nat, digit: nat, rest: nat, next: nat, m: nat): real
    requires n >= 1
  {
    if m == 0 then 0.0
    else Shares(n, place, digit, rest, next, m - 1) + Fraction(n, place, digit, rest, next, m - 1)
  }

  /** The first `m` weights added up. */
  ghost function Weights(n: nat, place: nat, digit: nat, rest: nat, next: nat, m: nat): int {
    if m == 0 then 0
    else Weights(n, place, digit, rest, next, m - 1) + Weight(n, place, digit, rest, next, m - 1)
  }

  lemma {:induction false} SharesScaled(n: nat, p: nat, digit: nat, r: nat, q: nat, m: nat)
    requires n >= 1
    ensures Part(Shares(n, p, digit, r, q, m), n) == Weights(n, p, digit, r, q, m) as real
  {
    hide Fraction, Weight, Part;
    PartNone(n);
    if m > 0 {
      SharesScaled(n, p, digit, r, q, m - 1);
      FractionScaled(n, p, digit, r, q, m - 1);
      PartSum(Shares(n, p, digit, r, q, m - 1), Fraction(n, p, digit, r, q, m - 1), n);
    }
  }

  lemma TurnsSum(p: nat, a: nat, b: nat)
    ensures Turns(p, a + b) == Turns(p, a) + Turns(p, b) && Turns(a + b, p) == Turns(a, p) + Turns(b, p)
    ensures Turns(a, b) == Turns(b, a) && Turns(p, 0) == 0 && Turns(p, 1) == p
  {
  }

  /** The weights added up, before the digit's own point and from it on. */
  lemma {:induction false} WeightsAre(n: nat, p: nat, digit: nat, r: nat, q: nat, m: nat)
    ensures Weights(n, p, digit, r, q, m)
            == if m <= digit then Turns(Turns(p, q + 1), m)
               else n - Turns(p, r) + Turns(p, digit) + Turns(Turns(p, q), m)
  {
    hide Turns;
    if m == 0 {
      TurnsSum(Turns(p, q + 1), 0, 0);
    } else {
      WeightsAre(n, p, digit, r, q, m - 1);
      TurnsStep(Turns(p, q + 1), m);
      TurnsStep(Turns(p, q), m);
      TurnsStep(p, q + 1);
      TurnsSum(digit, Turns(p, q), p);
      TurnsSum(p, digit, 0);
      TurnsSum(Turns(p, q), digit, 0);
      TurnsSum(Turns(p, q + 1), digit, 0);
    }
  }

  /** What the sixth position's shares come to, in codewords. */
  lemma TopWeights(n: nat, s: seq<nat>)
    requires n >= 1 && |s| == POSITIONS && Nonzero(s)
    ensures var p, r, m, q := Place(s, 5), TopRest(s, n), TopDigit(s, n), TopNext(s, n);
            Weights(n, p, m, r, q, s[5])
            == if m < s[5] then n - Turns(p, (r - m) % s[5]) else Turns(p, Turns(q + 1, s[5]))
  {
    hide Rest, Place;
    var p, r, m, q, c := Place(s, 5), TopRest(s, n), TopDigit(s, n), TopNext(s, n), s[5];
    Euclid(r - m, c);
    WeightsAre(n, p, m, r, q, c);
    hide TopRest, TopDigit, TopNext, Weights;
    TopAlgebra(p, r, m, q, c, (r - m) % c);
  }

  lemma TopAlgebra(p: nat, r: nat, m: nat, q: nat, c: nat, u: nat)
    requires r == m + q * c + u
    ensures Turns(p, r) == Turns(p, m) + Turns(Turns(p, q), c) + Turns(p, u)
    ensures Turns(Turns(p, q + 1), c) == Turns(p, Turns(q + 1, c))
  {
    assert p * r == p * m + p * (q * c) + p * u;
    assert p * q * c == p * (q * c);
    assert p * (q + 1) * c == p * ((q + 1) * c);
  }

  /** The sixth position's shares add up to one exactly when the cut digit is a point of the
      constellation and the constellation's size divides what was cut off. */
  lemma TopSharesExactly(n: nat, s: seq<nat>)
    requires n >= 1 && |s| == POSITIONS && Nonzero(s)
    ensures var sum := Shares(n, Place(s, 5), TopDigit(s, n), TopRest(s, n), TopNext(s, n), s[5]);
            sum == 1.0 <==> TopDigit(s, n) < s[5] && (TopRest(s, n) - TopDigit(s, n)) % s[5] == 0
  {
    var p, r, m, q, c := Place(s, 5), TopRest(s, n), TopDigit(s, n), TopNext(s, n), s[5];
    TopWeights(n, s);
    SharesScaled(n, p, m, r, q, c);
    RestIsQuotient(n - 1, s, 5);
    assert r == (n - 1) / p && m == r % WORD <= r && q == (r - m) / c;
    hide *;
    SumExactly(Shares(n, p, m, r, q, c), Weights(n, p, m, r, q, c), n, p, r, m, q, c);
  }

  lemma SumExactly(sum: real, weights: int, n: nat, p: nat, r: nat, m: nat, q: nat, c: nat)
    requires n >= 1 && p >= 1 && c >= 1 && m <= r && r == (n - 1) / p && q == (r - m) / c
    requires Part(sum, n) == weights as real
    requires weights == if m < c then n - Turns(p, (r - m) % c) else Turns(p, Turns(q + 1, c))
    ensures sum == 1.0 <==> m < c && (r - m) % c == 0
  {
    hide Part, Turns;
    OneExactly(sum, n);
    if m < c {
      ZeroExactly(p, (r - m) % c);
    } else {
      TopFallsShort(n, p, r, m, q, c);
    }
  }

  lemma OneExactly(sum: real, n: nat)
    requires n >= 1
    ensures sum == 1.0 <==> Part(sum, n) == n as real
  {
    var x := n as real;
    if sum > 1.0 {
      assert (sum - 1.0) * x > 0.0;
    } else if sum < 1.0 {
      assert (1.0 - sum) * x > 0.0;
    }
  }

  lemma ZeroExactly(p: nat, u: nat)
    requires p >= 1
    ensures Turns(p, u) == 0 <==> u == 0
  {
  }

  /** A cut digit outside the constellation leaves codewords uncounted. */
  lemma TopFallsShort(n: nat, p: nat, r: nat, m: nat, q: nat, c: nat)
    requires n >= 1 && p >= 1 && c >= 1 && c <= m <= r && r == (n - 1) / p && q == (r - m) / c
    ensures Turns(p, Turns(q + 1, c)) < n
  {
    Euclid(r - m, c);
    Euclid(n - 1, p);
    assert Turns(q + 1, c) <= r by {
      assert (q + 1) * c == q * c + c;
    }
    Grows(Turns(q + 1, c), r, p);
  }

  /** That covers every case with no more codewords than frames. */
  lemma FramesSuffice(n: nat, s: seq<nat>)
    requires |s| == POSITIONS && Nonzero(s) && s[5] < WORD && 1 <= n <= Place(s, POSITIONS)
    ensures TopDigit(s, n) < s[5] && (TopRest(s, n) - TopDigit(s, n)) % s[5] == 0
  {
    TrueTop(s, n);
    TopFits(n - 1, s);
    DivUnique(0, s[5], 0, 0);
    hide Rest, Place;
  }

  /** Two codewords and one frame: the shares come to less than one. */
  lemma OneFrameTooFew()
    ensures var s := [1, 1, 1, 1, 1, 1];
            Nonzero(s) && Place(s, 6) == 1
            && Shares(2, Place(s, 5), TopDigit(s, 2), TopRest(s, 2), TopNext(s, 2), s[5]) != 1.0
  {
    var s := [1, 1, 1, 1, 1, 1];
    assert Place(s, 2) == 1 && Place(s, 4) == 1 && Place(s, 6) == 1;
    assert Rest(1, s, 2) == 1 && Rest(1, s, 4) == 1 && Rest(1, s, 5) == 1;
    SmallMod(1, WORD);
    hide Rest, Place, Shares;
    TopSharesExactly(2, s);
  }

  /** Far more codewords than frames, and a rest that the cut wraps: the shares still come to
      one, so the number of frames alone does not decide it. */
  lemma WrappedToOne()
    ensures var s, n := [63, 11, 31, 151, 331, 8], 0x4000_0000_0000_0000;
            Nonzero(s) && Place(s, 6) < n
            && Shares(n, Place(s, 5), TopDigit(s, n), TopRest(s, n), TopNext(s, n), s[5]) == 1.0
  {
    var s, n := [63, 11, 31, 151, 331, 8], 0x4000_0000_0000_0000;
    assert Place(s, 2) == 693 && Place(s, 3) == 21483;
    assert Place(s, 4) == 3243933 && Place(s, 5) == 1073741823 && Place(s, 6) == 8589934584;
    RestIsQuotient(n - 1, s, 5);
    DivUnique(n - 1, 1073741823, 0x1_0000_0004, 3);
    hide Rest, Place, Shares;
    DivUnique(0x1_0000_0004, WORD, 1, 4);
    DivUnique(WORD, 8, WORD / 8, 0);
    TopSharesExactly(n, s);
  }
}

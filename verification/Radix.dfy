/** Mixed-radix digits: a value split by a list of radices and rebuilt from place values. */
module Radix {
  import opened Numbers

  ghost predicate Nonzero(s: seq<nat>) {
    forall i | 0 <= i < |s| :: s[i] >= 1
  }

  /** The place value of digit `i`: the product of the radices below it. */
  function Place(s: seq<nat>, i: nat): (p: nat)
    requires i <= |s|
  {
    if i == 0 then 1 else Place(s, i - 1) * s[i - 1]
  }

  /** What is left of `v` once `i` digits are taken off. */
  function Rest(v: nat, s: seq<nat>, i: nat): nat
    requires i <= |s| && Nonzero(s)
  {
    if i == 0 then v else Rest(v, s, i - 1) / s[i - 1]
  }

  function Digit(v: nat, s: seq<nat>, i: nat): nat
    requires i < |s| && Nonzero(s)
  {
    Rest(v, s, i) % s[i]
  }

  function Digits(v: nat, s: seq<nat>): seq<nat>
    requires Nonzero(s)
  {
    seq(|s|, i requires 0 <= i < |s| => Digit(v, s, i))
  }

  /** The first `i` digits weighted by their place values. */
  function Weighted(d: seq<nat>, s: seq<nat>, i: nat): nat
    requires i <= |d| && i <= |s|
  {
    if i == 0 then 0 else Weighted(d, s, i - 1) + d[i - 1] * Place(s, i - 1)
  }

  lemma DivDiv(v: nat, p: nat, c: nat)
    requires p >= 1 && c >= 1
    ensures p * c >= 1 && v / p / c == v / (p * c)
  {
    var q, u := v / p, v % p;
    var q', m := q / c, q % c;
    Grows(m + 1, c, p);
    assert m * p + u < p * c;
    assert v == q' * (p * c) + (m * p + u) by {
      assert v == q * p + u && q == q' * c + m;
      assert (q' * c + m) * p == q' * (p * c) + m * p;
    }
    DivUnique(v, p * c, q', m * p + u);
  }

  /** The rest is the value divided by the place value. */
  lemma {:induction false} RestIsQuotient(v: nat, s: seq<nat>, i: nat)
    requires i <= |s| && Nonzero(s)
    ensures Place(s, i) >= 1 && Rest(v, s, i) == v / Place(s, i)
  {
    if i > 0 {
      RestIsQuotient(v, s, i - 1);
      DivDiv(v, Place(s, i - 1), s[i - 1]);
    }
  }

  /** Digits and the last rest, each times its place value, rebuild the value. */
  lemma {:induction false} Rebuilds(v: nat, s: seq<nat>, i: nat)
    requires i <= |s| && Nonzero(s)
    ensures Weighted(Digits(v, s), s, i) + Rest(v, s, i) * Place(s, i) == v
    ensures forall k | 0 <= k < i :: Digits(v, s)[k] < s[k]
  {
    if i == 0 {
      RestNone(v, s);
    } else {
      hide Digit, Rest;
      Rebuilds(v, s, i - 1);
      RestSplits(v, s, i - 1);
      var d, p := Digits(v, s), Place(s, i - 1);
      assert d[i - 1] == Digit(v, s, i - 1);
      RebuildStep(Weighted(d, s, i - 1), d[i - 1], p, Rest(v, s, i - 1), Rest(v, s, i), s[i - 1]);
    }
  }

  lemma RestNone(v: nat, s: seq<nat>)
    requires Nonzero(s)
    ensures Rest(v, s, 0) * Place(s, 0) == v
  {
  }

  lemma RebuildStep(w: nat, d: nat, p: nat, r: nat, next: nat, c: nat)
    requires r == d + next * c
    ensures (w + d * p) + next * (p * c) == w + r * p
  {
    Carry(next, d, c, p);
  }

  lemma RestSplits(v: nat, s: seq<nat>, i: nat)
    requires i < |s| && Nonzero(s)
    ensures Rest(v, s, i) == Digit(v, s, i) + Rest(v, s, i + 1) * s[i] && Digit(v, s, i) < s[i]
  {
    Euclid(Rest(v, s, i), s[i]);
  }

  lemma Carry(q: nat, d: nat, c: nat, p: nat)
    ensures (d + q * c) * p == d * p + q * (p * c)
  {
    assert (q * c) * p == q * (c * p);
  }

  /** Digits in range are determined by the value, and so is the rest. */
  lemma {:induction false} Determined(d: seq<nat>, r: nat, s: seq<nat>, i: nat)
    requires i <= |s| && i <= |d| && Nonzero(s)
    requires forall k | 0 <= k < i :: d[k] < s[k]
    ensures var v := Weighted(d, s, i) + r * Place(s, i);
            Rest(v, s, i) == r && forall k | 0 <= k < i :: Digit(v, s, k) == d[k]
    decreases i
  {
    if i > 0 {
      var c, p := s[i - 1], Place(s, i - 1);
      Carry(r, d[i - 1], c, p);
      Determined(d, d[i - 1] + r * c, s, i - 1);
      DivUnique(d[i - 1] + r * c, c, r, d[i - 1]);
    }
  }
}

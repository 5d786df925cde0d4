/** The modulus encoder and decoder: a string of bits to six symbol indices and back. */
module ModulusCoder {
  import opened Numbers
  import opened Radix

  const LONG: nat := 0x8000_0000_0000_0000

  /** The number a bit string stands for, least significant bit first; only the lowest
      bit of each octet counts. */
  function Number(bytes: seq<nat>): nat {
    if bytes == [] then 0 else bytes[0] % 2 + 2 * Number(bytes[1..])
  }

  function BitString(v: nat, n: nat): (b: seq<nat>)
    ensures |b| == n
  {
    if n == 0 then [] else [v % 2] + BitString(v / 2, n - 1)
  }

  function LowBits(bytes: seq<nat>): seq<nat> {
    seq(|bytes|, i requires 0 <= i < |bytes| => bytes[i] % 2)
  }

  lemma {:induction false} NumberBits(bytes: seq<nat>)
    ensures BitString(Number(bytes), |bytes|) == LowBits(bytes) && Number(bytes) < Pow2(|bytes|)
  {
    if bytes != [] {
      NumberBits(bytes[1..]);
    }
  }

  lemma {:induction false} BitsNumber(v: nat, n: nat)
    requires v < Pow2(n)
    ensures Number(BitString(v, n)) == v
  {
    if n > 0 {
      BitsNumber(v / 2, n - 1);
      assert BitString(v, n)[1..] == BitString(v / 2, n - 1);
    }
  }

  /** Octet `i` carries bit `i` of the number. */
  lemma {:induction false} NumberBitAt(bytes: seq<nat>, i: nat)
    requires i < |bytes|
    ensures Number(bytes) / Pow2(i) % 2 == bytes[i] % 2
    decreases i
  {
    var low, high := bytes[0] % 2, Number(bytes[1..]);
    if i > 0 {
      NumberBitAt(bytes[1..], i - 1);
      DivDiv(low + 2 * high, 2, Pow2(i - 1));
      HalfOf(low, high);
    } else {
      HalfOf(low, high);
    }
  }

  lemma HalfOf(low: nat, high: nat)
    requires low < 2
    ensures (low + 2 * high) / 2 == high && (low + 2 * high) % 2 == low
  {
  }

  /** Octet `i` of the bits of `v` is bit `i` of `v`. */
  lemma {:induction false} BitStringAt(v: nat, n: nat, i: nat)
    requires i < n
    ensures BitString(v, n)[i] == v / Pow2(i) % 2
    decreases i
  {
    if i > 0 {
      BitStringAt(v / 2, n - 1, i - 1);
      DivDiv(v, 2, Pow2(i - 1));
    }
  }

  lemma {:induction false} Pow2Grows(n: nat, m: nat)
    requires n <= m
    ensures Pow2(n) <= Pow2(m)
  {
    if n < m {
      Pow2Grows(n, m - 1);
    }
  }

  lemma LongRange()
    ensures Pow2(63) == LONG
  {
    assert Pow2(8) == 256 && Pow2(16) == 0x10000;
    Doubles(16, 16);
    Doubles(32, 16);
    Doubles(48, 8);
    Doubles(56, 7);
    assert Pow2(7) == 128;
  }

  lemma {:induction false} Doubles(a: nat, b: nat)
    ensures Pow2(a + b) == Pow2(a) * Pow2(b)
  {
    if b > 0 {
      Doubles(a, b - 1);
    }
  }

  /** The coder's radices; the sixth size is read by neither direction. */
  ghost predicate Sizes(s: seq<nat>) {
    |s| == 5 && forall i | 0 <= i < 5 :: 1 <= s[i] < WORD
  }

  /** The first loop of the encoder: the bits taken in from the top. */
  method Gather(bytes: seq<nat>) returns (acc: nat)
    requires |bytes| <= 63
    ensures acc == Number(bytes) < LONG
  {
    hide Number;
    acc := 0;
    var i := |bytes| - 1;
    NumberNone();
    assert bytes[|bytes|..] == [];
    while i >= 0
      invariant -1 <= i < |bytes| && acc == Number(bytes[i + 1..])
    {
      NumberStep(bytes, i);
      acc := acc + acc + bytes[i] % 2;
      i := i - 1;
    }
    assert bytes[0..] == bytes;
    NumberFits(bytes);
  }

  lemma NumberNone()
    ensures Number([]) == 0
  {
  }

  lemma NumberStep(bytes: seq<nat>, i: nat)
    requires i < |bytes|
    ensures Number(bytes[i..]) == bytes[i] % 2 + 2 * Number(bytes[i + 1..])
  {
    assert bytes[i..][1..] == bytes[i + 1..];
  }

  lemma NumberFits(bytes: seq<nat>)
    requires |bytes| <= 63
    ensures Number(bytes) < LONG
  {
    NumberBits(bytes);
    Pow2Grows(|bytes|, 63);
    LongRange();
  }

  /** What the encoder puts out: five digits, and the last rest cut to a word. */
  ghost function Encoded(bytes: seq<nat>, s: seq<nat>): (out: seq<nat>)
    requires Sizes(s)
    ensures |out| == 6
  {
    var v := Number(bytes);
    Digits(v, s) + [Rest(v, s, 5) % WORD]
  }

  /** `ModulusEncoder::progress`, five divide steps written out. */
  method Encode(bytes: seq<nat>, s: seq<nat>) returns (out: seq<nat>)
    requires Sizes(s) && |bytes| <= 63
    ensures out == Encoded(bytes, s)
  {
    var acc := Gather(bytes);
    ghost var v := acc;
    var r1, d0 := Split(v, s, 0, acc);
    var r2, d1 := Split(v, s, 1, r1);
    var r3, d2 := Split(v, s, 2, r2);
    var r4, d3 := Split(v, s, 3, r3);
    var r5, d4 := Split(v, s, 4, r4);
    out := [d0, d1, d2, d3, d4, r5 % WORD];
  }

  /** One divide step: the remainder, cut to a word, subtracted before the division. */
  method Split(ghost v: nat, s: seq<nat>, i: nat, acc: nat) returns (rest: nat, digit: nat)
    requires Sizes(s) && i < 5 && acc == Rest(v, s, i)
    ensures digit == Digit(v, s, i) && rest == Rest(v, s, i + 1)
  {
    DivideStep(v, s, i, acc);
    hide Rest, Digit;
    digit := acc % s[i] % WORD;
    rest := (acc - digit) / s[i];
  }

  /** Digit and rest as one divide step computes them. */
  lemma DivideStep(v: nat, s: seq<nat>, i: nat, acc: nat)
    requires Nonzero(s) && i < |s| && s[i] < WORD && acc == Rest(v, s, i)
    ensures acc % s[i] % WORD == Digit(v, s, i) <= acc
    ensures (acc - Digit(v, s, i)) / s[i] == Rest(v, s, i + 1)
  {
    RestNext(v, s, i);
    hide Rest, Digit;
    DivideOnce(acc, s[i]);
  }

  lemma RestNext(v: nat, s: seq<nat>, i: nat)
    requires Nonzero(s) && i < |s|
    ensures Rest(v, s, i + 1) == Rest(v, s, i) / s[i] && Digit(v, s, i) == Rest(v, s, i) % s[i]
  {
  }

  lemma DivideOnce(a: nat, c: nat)
    requires 1 <= c < WORD
    ensures a % c % WORD == a % c <= a && (a - a % c) / c == a / c
  {
    Euclid(a, c);
    SmallMod(a % c, WORD);
    Exact(a, c);
  }

  lemma Exact(a: nat, c: nat)
    requires c >= 1
    ensures (a - a % c) / c == a / c
  {
    DivUnique(a - a % c, c, a / c, 0);
  }

  /** Horner's rule from the top digit down. */
  function Horner(d: seq<nat>, s: seq<nat>): nat
    requires |d| == 6 && |s| == 5
  {
    ((((d[5] * s[4] + d[4]) * s[3] + d[3]) * s[2] + d[2]) * s[1] + d[1]) * s[0] + d[0]
  }

  /** `ModulusDecoder::progress`; the accumulated value fits the signed accumulator. */
  method Decode(d: seq<nat>, s: seq<nat>, bitCount: nat) returns (bytes: seq<nat>)
    requires |d| == 6 && Sizes(s) && Horner(d, s) < LONG
    ensures bytes == BitString(Horner(d, s), bitCount)
  {
    var acc := d[5];
    acc := acc * s[4];
    acc := acc + d[4];
    acc := acc * s[3] + d[3];
    acc := acc * s[2] + d[2];
    acc := acc * s[1] + d[1];
    acc := acc * s[0] + d[0];
    ghost var v := acc;
    bytes := [];
    for i := 0 to bitCount
      invariant bytes + BitString(acc, bitCount - i) == BitString(v, bitCount)
    {
      assert BitString(acc, bitCount - i) == [acc % 2] + BitString(acc / 2, bitCount - i - 1);
      bytes := bytes + [acc % 2];
      acc := acc / 2;
    }
  }

  /** Horner's rule is the digits weighted by their place values. */
  lemma HornerIsWeighted(d: seq<nat>, s: seq<nat>)
    requires |d| == 6 && |s| == 5
    ensures Horner(d, s) == Weighted(d, s, 5) + d[5] * Place(s, 5)
  {
    Unroll(d, s, d[5], 4);
    Unroll(d, s, d[5] * s[4] + d[4], 3);
    Unroll(d, s, (d[5] * s[4] + d[4]) * s[3] + d[3], 2);
    Unroll(d, s, ((d[5] * s[4] + d[4]) * s[3] + d[3]) * s[2] + d[2], 1);
    Unroll(d, s, (((d[5] * s[4] + d[4]) * s[3] + d[3]) * s[2] + d[2]) * s[1] + d[1], 0);
    hide Place;
    assert Weighted(d, s, 0) == 0;
    assert Place(s, 0) == 1 by {
      Bottom(s);
    }
  }

  lemma Bottom(s: seq<nat>)
    ensures Place(s, 0) == 1
  {
  }

  lemma Unroll(d: seq<nat>, s: seq<nat>, r: nat, i: nat)
    requires |d| == 6 && |s| == 5 && i < 5
    ensures Weighted(d, s, i + 1) + r * Place(s, i + 1) == Weighted(d, s, i) + (r * s[i] + d[i]) * Place(s, i)
  {
    Carry(r, d[i], s[i], Place(s, i));
  }

  lemma WeightedAgrees(a: seq<nat>, b: seq<nat>, s: seq<nat>, i: nat)
    requires i <= |a| && i <= |b| && i <= |s| && forall k | 0 <= k < i :: a[k] == b[k]
    ensures Weighted(a, s, i) == Weighted(b, s, i)
  {
  }

  /** What decoding the encoder's output computes. */
  lemma HornerOfEncoded(bytes: seq<nat>, s: seq<nat>)
    requires Sizes(s)
    ensures var v := Number(bytes);
            Horner(Encoded(bytes, s), s) == v - (Rest(v, s, 5) - Rest(v, s, 5) % WORD) * Place(s, 5)
  {
    var v := Number(bytes);
    var d := Encoded(bytes, s);
    HornerIsWeighted(d, s);
    Rebuilds(v, s, 5);
    WeightedAgrees(d, Digits(v, s), s, 5);
    hide Weighted, Rest, Place, Horner, Digits, Number;
    assert d[5] == Rest(v, s, 5) % WORD;
    Subtract(Rest(v, s, 5), d[5], Place(s, 5));
  }

  lemma Subtract(a: int, b: int, p: int)
    ensures (a - b) * p == a * p - b * p
  {
  }

  /** The bits come back exactly when the last rest fits a word; otherwise they are never
      the ones put in. */
  lemma RoundTripExactly(bytes: seq<nat>, s: seq<nat>)
    requires Sizes(s) && |bytes| <= 63
    ensures var h := Horner(Encoded(bytes, s), s);
            && h < LONG
            && (BitString(h, |bytes|) == LowBits(bytes) <==> Rest(Number(bytes), s, 5) < WORD)
  {
    hide Horner, Rest, Place, Number, Encoded, BitString, LowBits, Pow2, Weighted, Digits;
    var v := Number(bytes);
    var h := Horner(Encoded(bytes, s), s);
    HornerOfEncoded(bytes, s);
    NumberBits(bytes);
    NumberFits(bytes);
    RestIsQuotient(v, s, 5);
    CutOff(Rest(v, s, 5), Place(s, 5));
    BitsNumber(h, |bytes|);
    BitsNumber(v, |bytes|);
  }

  lemma CutOff(r: nat, p: nat)
    requires p >= 1
    ensures (r - r % WORD) * p >= 0
    ensures (r - r % WORD) * p == 0 <==> r < WORD
  {
    if r >= WORD {
      assert r - r % WORD >= 1;
      Grows(1, r - r % WORD, p);
    }
  }

  /** And symbol indices in range survive being decoded to bits and encoded again. */
  lemma DigitsRoundTrip(d: seq<nat>, s: seq<nat>, bitCount: nat)
    requires |d| == 6 && Sizes(s) && (forall k | 0 <= k < 5 :: d[k] < s[k]) && d[5] < WORD
    requires Horner(d, s) < Pow2(bitCount)
    ensures Encoded(BitString(Horner(d, s), bitCount), s) == d
  {
    BitsNumber(Horner(d, s), bitCount);
    HornerIsWeighted(d, s);
    Determined(d, d[5], s, 5);
    SmallMod(d[5], WORD);
    hide Horner, Rest, Weighted, Place;
  }
}

/** The 16-bit frame check sequence of the Class 1 fax framer.

    `Nibble` is the table-free nibble update of `faxvmi_gen_fcs16`; `Step` is the
    one-bit feedback shift register; `Remainder` is schoolbook long division by
    x^16 + x^12 + x^5 + 1.  The three are proved to agree. */
module Fcs {
  import opened Bits

  type Reg = b: Bits | |b| == 16 witness Zeros(16)

  /** x^12 + x^5 + 1: the generator without its leading x^16, 0x1021. */
  const GENERATOR: Reg :=
    [false, false, false, true, false, false, false, false,
     false, false, true, false, false, false, false, true]

  /** A C loop `for (i = count; i-- != 0;)` over a 16-bit counter runs `count`
      modulo 65536 times, so a negative count does not stop at once. */
  function Trips(count: int): (n: nat)
    ensures 0 <= count < 0x10000 ==> n == count
  {
    count % 0x10000
  }

  /** Counting down from `count` in a sixteen-bit word reaches zero after that many steps, and
      not before. */
  lemma TripsExactly(count: int, k: nat)
    requires k < 0x10000
    ensures (count - k) % 0x10000 == 0 <==> k == Trips(count)
  {
    var q, r := count / 0x10000, count % 0x10000;
    assert count == 0x10000 * q + r;
    if k <= r {
      assert (count - k) % 0x10000 == r - k;
    } else {
      assert count - k == 0x10000 * (q - 1) + (0x10000 + r - k);
      assert (count - k) % 0x10000 == 0x10000 + r - k;
    }
  }

  // ------------------------------------------------------------ the bit register

  /** One bit into the register, most significant end first. */
  function Step(r: Reg, b: bool): Reg {
    if r[0] != b then Xor(r[1..] + [false], GENERATOR) else r[1..] + [false]
  }

  function Run(r: Reg, bits: Bits): Reg
    decreases |bits|
  {
    if bits == [] then r else Run(Step(r, bits[0]), bits[1..])
  }

  lemma {:induction false} RunConcat(r: Reg, a: Bits, b: Bits)
    ensures Run(r, a + b) == Run(Run(r, a), b)
    decreases |a|
  {
    if a == [] {
      assert a + b == b;
    } else {
      assert (a + b)[1..] == a[1..] + b;
      RunConcat(Step(r, a[0]), a[1..], b);
    }
  }

  /** The check sequence of a frame. */
  function Fcs16(words: seq<nat>): Reg {
    Not(Run(Ones(16), FrameBits(words)))
  }

  // --------------------------------------------------------- the nibble algorithm

  /** One nibble step with every intermediate at the width C gives it; the
      narrowing to sixteen bits happens before the final OR. */
  function Nibble(fcs: Reg, shifted: Bits): Reg
    requires |shifted| == 32
  {
    var t := MaskF000(Xor(shifted, Widen(fcs)));
    var n := Narrow(Xor(Shl(Xor(Widen(fcs), Shr(t, 11)), 4), t));
    Narrow(Or(Widen(n), Shr(t, 12)))
  }

  /** The same step as it stood before the narrowing was moved inside the OR. */
  function NibbleNarrowLast(fcs: Reg, shifted: Bits): Reg
    requires |shifted| == 32
  {
    var t := MaskF000(Xor(shifted, Widen(fcs)));
    Narrow(Or(Xor(Shl(Xor(Widen(fcs), Shr(t, 11)), 4), t), Shr(t, 12)))
  }

  lemma NarrowingCommutes(fcs: Reg, shifted: Bits)
    requires |shifted| == 32
    ensures Nibble(fcs, shifted) == NibbleNarrowLast(fcs, shifted)
  {
  }

  /** The register after up to four steps with feedback bits `f`: shifted, `f` in the
      vacated cells and added onto the x^12 and x^5 cells. */
  function Fold(r: Reg, f: Bits): Reg
    requires |f| <= 4
  {
    Xor((r + f)[|f|..], Zeros(4 - |f|) + f + Zeros(7 - |f|) + f + Zeros(5))
  }

  lemma TapsOf(r: Reg, s: Bits, f: Bits, t: Bits)
    requires |s| == 32 && f == Xor(r[..4], s[16..20])
    requires t == MaskF000(Xor(s, Widen(r)))
    ensures forall i | 0 <= i < 32 :: t[i] == (16 <= i < 20 && f[i - 16])
  {
  }

  lemma ShiftedTaps(r: Reg, f: Bits, t: Bits, x: Bits)
    requires |f| == 4 && |t| == 32
    requires forall i | 0 <= i < 32 :: t[i] == (16 <= i < 20 && f[i - 16])
    requires x == Xor(Shl(Xor(Widen(r), Shr(t, 11)), 4), t)
    ensures forall i | 16 <= i < 32 ::
      x[i] == ((i < 28 && (r[i - 12] != (23 <= i < 27 && f[i - 23]))) != (i < 20 && f[i - 16]))
  {
    var u := Xor(Widen(r), Shr(t, 11));
    assert forall i | 16 <= i < 32 :: u[i] == (r[i - 16] != (27 <= i < 31 && f[i - 27]));
  }

  /** Cell `i` of the folded register, by the taps that reach it. */
  predicate FoldCell(r: Reg, f: Bits, i: nat)
    requires |f| == 4 && i < 16
  {
    (if i < 12 then r[i + 4] else f[i - 12]) != ((i < 4 && f[i]) || (7 <= i < 11 && f[i - 7]))
  }

  lemma FoldCells(r: Reg, f: Bits)
    requires |f| == 4
    ensures forall i | 0 <= i < 16 :: Fold(r, f)[i] == FoldCell(r, f, i)
  {
    var m := Zeros(0) + f + Zeros(3) + f + Zeros(5);
    assert forall i | 0 <= i < 16 :: m[i] == ((i < 4 && f[i]) || (7 <= i < 11 && f[i - 7]));
    var t := (r + f)[4..];
    assert forall i | 0 <= i < 16 :: t[i] == (if i < 12 then r[i + 4] else f[i - 12]);
    assert Fold(r, f) == Xor(t, m);
  }

  /** The words of a nibble step, told by their cells alone. */
  lemma NibbleWords(r: Reg, s: Bits, f: Bits) returns (x: Bits, v: Bits)
    requires |s| == 32 && f == Xor(r[..4], s[16..20])
    ensures |f| == 4 && |x| == 32 && |v| == 32
    ensures forall i | 16 <= i < 32 ::
      x[i] == ((i < 28 && (r[i - 12] != (23 <= i < 27 && f[i - 23]))) != (i < 20 && f[i - 16]))
    ensures forall i | 16 <= i < 32 :: v[i] == (28 <= i && f[i - 28])
    ensures forall i | 0 <= i < 16 :: Nibble(r, s)[i] == (x[i + 16] || v[i + 16])
  {
    var t := MaskF000(Xor(s, Widen(r)));
    TapsOf(r, s, f, t);
    x, v := Xor(Shl(Xor(Widen(r), Shr(t, 11)), 4), t), Shr(t, 12);
    ShiftedTaps(r, f, t, x);
    TopTaps(f, t, v);
    NibbleCells(r, s, t, x, v);
    hide MaskF000, Shl, Shr, Xor, Widen, Nibble;
  }

  lemma TopTaps(f: Bits, t: Bits, v: Bits)
    requires |f| == 4 && |t| == 32 && v == Shr(t, 12)
    requires forall i | 0 <= i < 32 :: t[i] == (16 <= i < 20 && f[i - 16])
    ensures |v| == 32 && forall i | 16 <= i < 32 :: v[i] == (28 <= i && f[i - 28])
  {
    hide Shr;
    forall i | 16 <= i < 32
      ensures v[i] == (28 <= i && f[i - 28])
    {
      assert v[i] == t[i - 12];
    }
  }

  lemma NibbleCells(r: Reg, s: Bits, t: Bits, x: Bits, v: Bits)
    requires |s| == 32 && |t| == 32 && |x| == 32 && |v| == 32 && t == MaskF000(Xor(s, Widen(r)))
    requires x == Xor(Shl(Xor(Widen(r), Shr(t, 11)), 4), t) && v == Shr(t, 12)
    ensures forall i | 0 <= i < 16 :: Nibble(r, s)[i] == (x[i + 16] || v[i + 16])
  {
    hide MaskF000, Shl, Shr, Xor;
    LastOr(x, v);
  }

  lemma LastOr(x: Bits, v: Bits)
    requires |x| == 32 && |v| == 32
    ensures forall i | 0 <= i < 16 :: Narrow(Or(Widen(Narrow(x)), v))[i] == (x[i + 16] || v[i + 16])
  {
  }

  lemma NibbleFolds(r: Reg, s: Bits, f: Bits)
    requires |s| == 32 && f == Xor(r[..4], s[16..20])
    ensures Nibble(r, s) == Fold(r, f)
  {
    hide Nibble, Fold, Xor, FoldCell;
    var x, v := NibbleWords(r, s, f);
    FoldCells(r, f);
    forall i | 0 <= i < 16
      ensures Nibble(r, s)[i] == Fold(r, f)[i]
    {
      SameCell(r, f, i, x[i + 16], v[i + 16]);
    }
  }

  lemma SameCell(r: Reg, f: Bits, i: nat, x: bool, v: bool)
    requires |f| == 4 && i < 16
    requires x == ((i < 12 && (r[i + 4] != (7 <= i < 11 && f[i - 7]))) != (i < 4 && f[i]))
    requires v == (12 <= i && f[i - 12])
    ensures (x || v) == FoldCell(r, f, i)
  {
  }

  /** What `f` adds onto cell `i`: its bits end at the x^12 and x^5 cells. */
  predicate MaskAt(f: Bits, i: nat)
    requires |f| <= 4
  {
    (4 - |f| <= i < 4 && f[i - (4 - |f|)]) || (11 - |f| <= i < 11 && f[i - (11 - |f|)])
  }

  lemma MaskIs(f: Bits, m: Bits)
    requires |f| <= 4 && m == Zeros(4 - |f|) + f + Zeros(7 - |f|) + f + Zeros(5)
    ensures forall i | 0 <= i < 16 :: m[i] == MaskAt(f, i)
  {
  }

  lemma FoldAt(r: Reg, f: Bits)
    requires |f| <= 4
    ensures forall i | 0 <= i < 16 ::
              Fold(r, f)[i] == ((if i + |f| < 16 then r[i + |f|] else f[i + |f| - 16]) != MaskAt(f, i))
  {
    var m := Zeros(4 - |f|) + f + Zeros(7 - |f|) + f + Zeros(5);
    MaskIs(f, m);
    hide MaskAt;
    assert Fold(r, f) == Xor((r + f)[|f|..], m);
  }

  lemma MaskGrows(f: Bits, b: bool, i: nat)
    requires |f| < 4 && i < 15
    ensures MaskAt(f + [b], i) == (MaskAt(f, i + 1) != (b && (i == 3 || i == 10)))
  {
  }

  lemma StepFolds(r: Reg, f: Bits, b: bool)
    requires |f| < 4
    ensures Step(Fold(r, f), b) == Fold(r, f + [r[|f|] != b])
  {
    var k, s := |f|, Fold(r, f);
    var g := f + [r[k] != b];
    FoldAt(r, f);
    FoldAt(r, g);
    assert s[0] == r[k];
    var x, y := Step(s, b), Fold(r, g);
    assert forall i | 0 <= i < 15 :: x[i] == (s[i + 1] != (g[k] && (i == 3 || i == 10)));
    hide Fold, Step;
    forall i | 0 <= i < 16
      ensures x[i] == y[i]
    {
      if i < 15 {
        MaskGrows(f, g[k], i);
      }
    }
  }

  lemma RunSnoc(r: Reg, a: Bits, b: bool)
    ensures Run(r, a + [b]) == Step(Run(r, a), b)
  {
    RunConcat(r, a, [b]);
    var s := Run(r, a);
    assert [b][1..] == [];
    assert Run(s, [b]) == Run(Step(s, b), []);
  }

  lemma FoldNone(r: Reg)
    ensures Fold(r, []) == r
  {
    assert (r + [])[0..] == r;
  }

  lemma RunFoldsOne(r: Reg, q: Bits, f: Bits, b: bool)
    requires |f| < 4 && Run(r, q) == Fold(r, f)
    ensures Run(r, q + [b]) == Fold(r, f + [r[|f|] != b])
  {
    RunSnoc(r, q, b);
    StepFolds(r, f, b);
  }

  lemma RunNone(r: Reg)
    ensures Run(r, []) == r
  {
  }

  lemma RunFolds(r: Reg, q: Bits, f: Bits)
    requires |q| == 4 && f == Xor(r[..4], q)
    ensures Run(r, q) == Fold(r, f)
  {
    hide Run, Fold;
    FoldNone(r);
    RunNone(r);
    RunFoldsOne(r, [], [], q[0]);
    RunFoldsOne(r, [] + [q[0]], [] + [f[0]], q[1]);
    RunFoldsOne(r, [] + [q[0]] + [q[1]], [] + [f[0]] + [f[1]], q[2]);
    RunFoldsOne(r, [] + [q[0]] + [q[1]] + [q[2]], [] + [f[0]] + [f[1]] + [f[2]], q[3]);
    FourOf(q);
    FourOf(f);
  }

  lemma FourOf(q: Bits)
    requires |q| == 4
    ensures q == [] + [q[0]] + [q[1]] + [q[2]] + [q[3]]
  {
  }

  /** A nibble step is four bits of long division, taking bits 15..12 of `s`. */
  lemma NibbleRuns(r: Reg, s: Bits)
    requires |s| == 32
    ensures Nibble(r, s) == Run(r, s[16..20])
  {
    var f := Xor(r[..4], s[16..20]);
    NibbleFolds(r, s, f);
    RunFolds(r, s[16..20], f);
  }

  /** Both nibble steps over one buffer element, as the loop body runs them. */
  function Octet(r: Reg, word: Bits): Reg
    requires |word| == 32
  {
    Nibble(Nibble(r, Shl(word, 8)), Shl(word, 12))
  }

  lemma OctetIsEightSteps(r: Reg, word: Bits)
    requires |word| == 32
    ensures Octet(r, word) == Run(r, word[24..])
  {
    OctetSlices(word);
    NibbleRuns(r, Shl(word, 8));
    NibbleRuns(Nibble(r, Shl(word, 8)), Shl(word, 12));
    RunConcat(r, word[24..28], word[28..]);
  }

  lemma OctetSlices(word: Bits)
    requires |word| == 32
    ensures Shl(word, 8)[16..20] == word[24..28]
    ensures Shl(word, 12)[16..20] == word[28..]
    ensures word[24..28] + word[28..] == word[24..]
  {
  }

  lemma {:induction false} LowBitsOf(w: nat, n: nat, k: nat)
    requires k <= n
    ensures BitsOf(w, n)[n - k..] == BitsOf(w, k)
  {
    if k != 0 {
      LowBitsOf(w / 2, n - 1, k - 1);
    }
  }

  lemma LowOctetOf(w: nat)
    ensures OctetBits(w) == BitsOf(w, 8)
  {
    hide BitsOf;
  }

  lemma RunElement(buf: seq<nat>, i: nat)
    requires i < |buf|
    ensures Octet(Run(Ones(16), FrameBits(buf[..i])), BitsOf(buf[i], 32)) == Run(Ones(16), FrameBits(buf[..i + 1]))
  {
    hide Run, FrameBits, Octet, BitsOf, OctetBits;
    OctetIsEightSteps(Run(Ones(16), FrameBits(buf[..i])), BitsOf(buf[i], 32));
    LowOctetOf(buf[i]);
    LowBitsOf(buf[i], 32, 8);
    assert buf[..i + 1] == buf[..i] + [buf[i]];
    FrameBitsConcat(buf[..i], [buf[i]]);
    FrameBitsOne(buf[i]);
    RunConcat(Ones(16), FrameBits(buf[..i]), OctetBits(buf[i]));
  }

  /** `faxvmi_gen_fcs16`: the nibble loop over the first `count` elements of a buffer. */
  method GenFcs16(buf: seq<nat>, count: int) returns (result: Reg)
    requires Trips(count) <= |buf|
    ensures result == Fcs16(buf[..Trips(count)])
  {
    var fcs: Reg := Ones(16);
    var n := Trips(count);
    var i := 0;
    while i != n
      invariant 0 <= i <= n
      invariant fcs == Run(Ones(16), FrameBits(buf[..i]))
    {
      RunElement(buf, i);
      var octet := BitsOf(buf[i], 32);
      fcs := Nibble(fcs, Shl(octet, 8));
      fcs := Nibble(fcs, Shl(octet, 12));
      i := i + 1;
    }
    result := Not(fcs);
  }

  // ----------------------------------------------------------------- long division

  /** `p` with its first sixteen coefficients added (mod 2) to `d`. */
  function AddAtTop(p: Bits, d: Reg): (q: Bits)
    requires |p| >= 16
    ensures |q| == |p|
  {
    Xor(p[..16], d) + p[16..]
  }

  /** Remainder of a polynomial, highest coefficient first, on division by the
      generator: cancel the leading term, drop it, repeat. */
  function Remainder(p: Bits): Reg
    requires |p| >= 16
    decreases |p|
  {
    if |p| == 16 then p
    else Remainder(if p[0] then AddAtTop(p[1..], GENERATOR) else p[1..])
  }

  lemma AddAtTopTail(p: Bits, r: Reg)
    requires |p| >= 17
    ensures AddAtTop(p, r)[0] == (p[0] != r[0])
    ensures AddAtTop(p, r)[1..] == AddAtTop(p[1..], r[1..] + [false])
  {
  }

  lemma AddAtTopTwice(p: Bits, r: Reg, s: Reg)
    requires |p| >= 16
    ensures AddAtTop(AddAtTop(p, r), s) == AddAtTop(p, Xor(r, s))
  {
  }

  /** The register holds the remainder of x^16 times the message, with the start
      value added onto the sixteen leading coefficients. */
  lemma {:induction false} RunIsRemainder(r: Reg, m: Bits)
    ensures Run(r, m) == Remainder(AddAtTop(m + Zeros(16), r))
    decreases |m|
  {
    var p := AddAtTop(m + Zeros(16), r);
    if m == [] {
      assert p == r;
    } else {
      RunIsRemainder(Step(r, m[0]), m[1..]);
      AddAtTopTail(m + Zeros(16), r);
      assert (m + Zeros(16))[1..] == m[1..] + Zeros(16);
      AddAtTopTwice(m[1..] + Zeros(16), r[1..] + [false], GENERATOR);
    }
  }

  /** Section 5.3.7 of ITU-T T.30: the check sequence is the complement of the
      remainder of x^16 M(x) + x^k (x^15 + ... + 1). */
  lemma FcsIsPolynomialDivision(words: seq<nat>)
    ensures Fcs16(words) == Not(Remainder(AddAtTop(FrameBits(words) + Zeros(16), Ones(16))))
  {
    RunIsRemainder(Ones(16), FrameBits(words));
  }
}

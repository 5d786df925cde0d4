/** Check sequences of a few given octets, worked out nibble by nibble. */
module FcsLiterals {
  import opened Numbers
  import opened Bits
  import opened Fcs

  const FFF0: Reg := [true, true, true, true, true, true, true, true,
                      true, true, true, true, false, false, false, false]
  const FF00: Reg := [true, true, true, true, true, true, true, true,
                      false, false, false, false, false, false, false, false]
  const C063: Reg := [true, true, false, false, false, false, false, false,
                      false, true, true, false, false, false, true, true]
  const C7BC: Reg := [true, true, false, false, false, true, true, true,
                      true, false, true, true, true, true, false, false]
  const X46B4: Reg := [false, true, false, false, false, true, true, false,
                       true, false, true, true, false, true, false, false]
  const X2BC4: Reg := [false, false, true, false, true, false, true, true,
                       true, true, false, false, false, true, false, false]
  const X8C23: Reg := [true, false, false, false, true, true, false, false,
                       false, false, true, false, false, false, true, true]
  const X90C6: Reg := [true, false, false, true, false, false, false, false,
                       true, true, false, false, false, true, true, false]
  const X9D49: Reg := [true, false, false, true, true, true, false, true,
                       false, true, false, false, true, false, false, true]

  const NIBBLE_0: Bits := [false, false, false, false]
  const NIBBLE_1: Bits := [false, false, false, true]
  const NIBBLE_2: Bits := [false, false, true, false]
  const NIBBLE_3: Bits := [false, false, true, true]
  const NIBBLE_5: Bits := [false, true, false, true]
  const NIBBLE_6: Bits := [false, true, true, false]
  const NIBBLE_8: Bits := [true, false, false, false]
  const NIBBLE_9: Bits := [true, false, false, true]
  const NIBBLE_B: Bits := [true, false, true, true]
  const NIBBLE_C: Bits := [true, true, false, false]
  const NIBBLE_D: Bits := [true, true, false, true]
  const NIBBLE_F: Bits := [true, true, true, true]

  /** Cell `i` of a register after four steps with feedback bits `f`. */
  predicate Cell(r: Reg, f: Bits, i: nat)
    requires |f| == 4 && i < 16
  {
    (if i < 12 then r[i + 4] else f[i - 12]) != ((i < 4 && f[i]) || (7 <= i < 11 && f[i - 7]))
  }

  /** One nibble more: `q` fed to the register behind `before`. */
  lemma Feed(before: Bits, r: Reg, q: Bits, f: Bits, next: Reg)
    requires Run(Ones(16), before) == r
    requires |q| == |f| == 4 && f == Xor(r[..4], q)
    requires forall i | 0 <= i < 16 :: next[i] == Cell(r, f, i)
    ensures Run(Ones(16), before + q) == next
  {
    hide Run;
    RunConcat(Ones(16), before, q);
    RunFolds(r, q, f);
    FoldCells(r, f);
    var y := Fold(r, f);
    assert forall i | 0 <= i < 16 :: y[i] == Cell(r, f, i);
    assert y == next;
  }

  lemma Start()
    ensures Run(Ones(16), []) == Ones(16)
  {
  }

  lemma BehindF()
    ensures Run(Ones(16), NIBBLE_F) == FFF0
  {
    hide Run;
    Start();
    Feed([], Ones(16), NIBBLE_F, NIBBLE_0, FFF0);
    assert [] + NIBBLE_F == NIBBLE_F;
  }

  /** Behind 0xFF. */
  lemma BehindFF()
    ensures Run(Ones(16), NIBBLE_F + NIBBLE_F) == FF00
  {
    hide Run;
    BehindF();
    Feed(NIBBLE_F, FFF0, NIBBLE_F, NIBBLE_0, FF00);
  }

  /** Behind 0xFF and the upper half of 0xC0 or 0xC8. */
  lemma BehindFFC()
    ensures Run(Ones(16), NIBBLE_F + NIBBLE_F + NIBBLE_C) == C063
  {
    hide Run;
    BehindFF();
    Feed(NIBBLE_F + NIBBLE_F, FF00, NIBBLE_C, [false, false, true, true], C063);
  }

  lemma BehindFFC0()
    ensures Run(Ones(16), NIBBLE_F + NIBBLE_F + NIBBLE_C + NIBBLE_0) == C7BC
  {
    hide Run;
    BehindFFC();
    Feed(NIBBLE_F + NIBBLE_F + NIBBLE_C, C063, NIBBLE_0, NIBBLE_C, C7BC);
  }

  lemma BehindFFC8()
    ensures Run(Ones(16), NIBBLE_F + NIBBLE_F + NIBBLE_C + NIBBLE_8) == X46B4
  {
    hide Run;
    BehindFFC();
    Feed(NIBBLE_F + NIBBLE_F + NIBBLE_C, C063, NIBBLE_8, [false, true, false, false], X46B4);
  }

  lemma BehindFFC80()
    ensures Run(Ones(16), NIBBLE_F + NIBBLE_F + NIBBLE_C + NIBBLE_8 + NIBBLE_0) == X2BC4
  {
    hide Run;
    BehindFFC8();
    Feed(NIBBLE_F + NIBBLE_F + NIBBLE_C + NIBBLE_8, X46B4, NIBBLE_0, [false, true, false, false], X2BC4);
  }

  lemma BehindFFC801()
    ensures Run(Ones(16), NIBBLE_F + NIBBLE_F + NIBBLE_C + NIBBLE_8 + NIBBLE_0 + NIBBLE_1) == X8C23
  {
    hide Run;
    BehindFFC80();
    Feed(NIBBLE_F + NIBBLE_F + NIBBLE_C + NIBBLE_8 + NIBBLE_0, X2BC4, NIBBLE_1, [false, false, true, true], X8C23);
  }

  lemma BehindFF9()
    ensures Run(Ones(16), NIBBLE_F + NIBBLE_F + NIBBLE_9) == X90C6
  {
    hide Run;
    BehindFF();
    Feed(NIBBLE_F + NIBBLE_F, FF00, NIBBLE_9, [false, true, true, false], X90C6);
  }

  lemma BehindFF90()
    ensures Run(Ones(16), NIBBLE_F + NIBBLE_F + NIBBLE_9 + NIBBLE_0) == X9D49
  {
    hide Run;
    BehindFF9();
    Feed(NIBBLE_F + NIBBLE_F + NIBBLE_9, X90C6, NIBBLE_0, NIBBLE_9, X9D49);
  }

  // ---------------------------------------------------------------------------- octets

  function Digit(b: bool): nat {
    if b then 1 else 0
  }

  /** An octet from its eight bits. */
  lemma Octet8(w: nat, b: Bits)
    requires |b| == 8
    requires w == 128 * Digit(b[0]) + 64 * Digit(b[1]) + 32 * Digit(b[2]) + 16 * Digit(b[3])
                  + 8 * Digit(b[4]) + 4 * Digit(b[5]) + 2 * Digit(b[6]) + Digit(b[7])
    ensures OctetBits(w) == b
  {
    EightBits(b);
    BitsOfValue(b);
  }

  lemma EightBits(b: Bits)
    requires |b| == 8
    ensures Value(b) == 128 * Digit(b[0]) + 64 * Digit(b[1]) + 32 * Digit(b[2]) + 16 * Digit(b[3])
                        + 8 * Digit(b[4]) + 4 * Digit(b[5]) + 2 * Digit(b[6]) + Digit(b[7])
  {
    hide Value, Digit, Pow2;
    assert b[..8] == b;
    FourBits(b);
    FourMore(b);
  }

  lemma FourBits(b: Bits)
    requires |b| >= 4
    ensures Value(b[..4]) == 8 * Digit(b[0]) + 4 * Digit(b[1]) + 2 * Digit(b[2]) + Digit(b[3])
  {
    hide Value, Digit, Pow2;
    assert b[..0] == [];
    ValueNone();
    ValueStep(b, 3);
    ValueStep(b, 2);
    ValueStep(b, 1);
    ValueStep(b, 0);
  }

  lemma FourMore(b: Bits)
    requires |b| >= 8
    ensures Value(b[..8])
         == 16 * Value(b[..4]) + 8 * Digit(b[4]) + 4 * Digit(b[5]) + 2 * Digit(b[6]) + Digit(b[7])
  {
    hide Value, Digit, Pow2;
    ValueStep(b, 7);
    ValueStep(b, 6);
    ValueStep(b, 5);
    ValueStep(b, 4);
  }

  lemma ValueNone()
    ensures Value([]) == 0
  {
  }

  lemma ValueStep(b: Bits, k: nat)
    requires k < |b|
    ensures Value(b[..k + 1]) == 2 * Value(b[..k]) + Digit(b[k])
  {
    assert b[..k + 1][..k] == b[..k];
  }

  lemma TwoOctets(a: nat, b: nat)
    ensures FrameBits([a, b]) == OctetBits(a) + OctetBits(b)
  {
    assert [a, b] == [a] + [b];
    FrameBitsConcat([a], [b]);
    FrameBitsOne(a);
    FrameBitsOne(b);
  }

  lemma ThreeOctets(a: nat, b: nat, c: nat)
    ensures FrameBits([a, b, c]) == OctetBits(a) + OctetBits(b) + OctetBits(c)
  {
    assert [a, b, c] == [a, b] + [c];
    FrameBitsConcat([a, b], [c]);
    TwoOctets(a, b);
    FrameBitsOne(c);
  }

  /** The halves of an octet. */
  lemma Halves(w: nat, high: Bits, low: Bits)
    requires |high| == |low| == 4
    requires w == 128 * Digit(high[0]) + 64 * Digit(high[1]) + 32 * Digit(high[2]) + 16 * Digit(high[3])
                  + 8 * Digit(low[0]) + 4 * Digit(low[1]) + 2 * Digit(low[2]) + Digit(low[3])
    ensures OctetBits(w) == high + low
  {
    hide Digit;
    Octet8(w, high + low);
  }

  /** FF C0 has check octets 38 43. */
  lemma DigestFFC0()
    ensures Fcs16([0xFF, 0xC0]) == Not(C7BC)
    ensures OctetBits(0x38) == Not(C7BC)[..8] && OctetBits(0x43) == Not(C7BC)[8..]
  {
    hide Run, OctetBits, FrameBits;
    Halves(0xFF, NIBBLE_F, NIBBLE_F);
    Halves(0xC0, NIBBLE_C, NIBBLE_0);
    TwoOctets(0xFF, 0xC0);
    assert (NIBBLE_F + NIBBLE_F) + (NIBBLE_C + NIBBLE_0) == NIBBLE_F + NIBBLE_F + NIBBLE_C + NIBBLE_0;
    BehindFFC0();
    Octet8(0x38, Not(C7BC)[..8]);
    Octet8(0x43, Not(C7BC)[8..]);
  }

  /** FF C8 has check octets B9 4B. */
  lemma DigestFFC8()
    ensures Fcs16([0xFF, 0xC8]) == Not(X46B4)
    ensures OctetBits(0xB9) == Not(X46B4)[..8] && OctetBits(0x4B) == Not(X46B4)[8..]
  {
    hide Run, OctetBits, FrameBits;
    Halves(0xFF, NIBBLE_F, NIBBLE_F);
    Halves(0xC8, NIBBLE_C, NIBBLE_8);
    TwoOctets(0xFF, 0xC8);
    assert (NIBBLE_F + NIBBLE_F) + (NIBBLE_C + NIBBLE_8) == NIBBLE_F + NIBBLE_F + NIBBLE_C + NIBBLE_8;
    BehindFFC8();
    Octet8(0xB9, Not(X46B4)[..8]);
    Octet8(0x4B, Not(X46B4)[8..]);
  }

  /** FF C8 01 has check octets 73 DC. */
  lemma DigestFFC801()
    ensures Fcs16([0xFF, 0xC8, 0x01]) == Not(X8C23)
    ensures OctetBits(0x73) == Not(X8C23)[..8] && OctetBits(0xDC) == Not(X8C23)[8..]
  {
    hide Run, OctetBits, FrameBits;
    Halves(0xFF, NIBBLE_F, NIBBLE_F);
    Halves(0xC8, NIBBLE_C, NIBBLE_8);
    Halves(0x01, NIBBLE_0, NIBBLE_1);
    ThreeOctets(0xFF, 0xC8, 0x01);
    SixNibbles(NIBBLE_F, NIBBLE_F, NIBBLE_C, NIBBLE_8, NIBBLE_0, NIBBLE_1);
    BehindFFC801();
    Octet8(0x73, Not(X8C23)[..8]);
    Octet8(0xDC, Not(X8C23)[8..]);
  }

  lemma SixNibbles(a: Bits, b: Bits, c: Bits, d: Bits, e: Bits, f: Bits)
    ensures (a + b) + (c + d) + (e + f) == a + b + c + d + e + f
  {
  }

  /** FF 90 has check octets 62 B6. */
  lemma DigestFF90()
    ensures Fcs16([0xFF, 0x90]) == Not(X9D49)
    ensures OctetBits(0x62) == Not(X9D49)[..8] && OctetBits(0xB6) == Not(X9D49)[8..]
  {
    hide Run, OctetBits, FrameBits;
    Halves(0xFF, NIBBLE_F, NIBBLE_F);
    Halves(0x90, NIBBLE_9, NIBBLE_0);
    TwoOctets(0xFF, 0x90);
    assert (NIBBLE_F + NIBBLE_F) + (NIBBLE_9 + NIBBLE_0) == NIBBLE_F + NIBBLE_F + NIBBLE_9 + NIBBLE_0;
    BehindFF90();
    Octet8(0x62, Not(X9D49)[..8]);
    Octet8(0xB6, Not(X9D49)[8..]);
  }
}

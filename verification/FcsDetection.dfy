/** What the frame check sequence is for: the residue of a correct frame, the exact set of
    correct frames, and the detection of every burst of sixteen bits and of every odd number
    of wrong bits. */
module FcsDetection {
  import opened Bits
  import opened Fcs

  /** 0x1D0F: the register, before the final complement, after a correct frame. */
  const RESIDUE: Reg :=
    [false, false, false, true, true, true, false, true,
     false, false, false, false, true, true, true, true]

  /** FAXVMI_FCS16_GOOD, 0xE2F0: what `faxvmi_gen_fcs16` returns for a correct frame. */
  const GOOD: Reg :=
    [true, true, true, false, false, false, true, false,
     true, true, true, true, false, false, false, false]

  // ------------------------------------------------------------- linearity, injectivity

  lemma StepLinear(r: Reg, s: Reg, a: bool, b: bool)
    ensures Step(Xor(r, s), a != b) == Xor(Step(r, a), Step(s, b))
  {
    var x, y := Step(Xor(r, s), a != b), Xor(Step(r, a), Step(s, b));
    assert forall i | 0 <= i < 16 :: x[i] == y[i];
  }

  lemma {:induction false} RunLinear(r: Reg, s: Reg, a: Bits, b: Bits)
    requires |a| == |b|
    ensures Run(Xor(r, s), Xor(a, b)) == Xor(Run(r, a), Run(s, b))
    decreases |a|
  {
    if a != [] {
      StepLinear(r, s, a[0], b[0]);
      assert Xor(a, b)[1..] == Xor(a[1..], b[1..]);
      RunLinear(Step(r, a[0]), Step(s, b[0]), a[1..], b[1..]);
    }
  }

  lemma StepInjective(r: Reg, s: Reg, b: bool)
    requires Step(r, b) == Step(s, b)
    ensures r == s
  {
    var x, y := Step(r, b), Step(s, b);
    assert x[15] == (r[0] != b) && y[15] == (s[0] != b);
    forall i | 1 <= i < 16
      ensures r[i] == s[i]
    {
      assert x[i - 1] == y[i - 1];
    }
  }

  lemma {:induction false} RunInjective(r: Reg, s: Reg, bits: Bits)
    requires Run(r, bits) == Run(s, bits)
    ensures r == s
    decreases |bits|
  {
    if bits != [] {
      RunInjective(Step(r, bits[0]), Step(s, bits[0]), bits[1..]);
      StepInjective(r, s, bits[0]);
    }
  }

  /** At most sixteen bits, left-justified in a register. */
  function Pad(b: Bits): Reg
    requires |b| <= 16
  {
    b + Zeros(16 - |b|)
  }

  /** Feeding up to sixteen bits is adding them onto the register and feeding zeros. */
  lemma {:induction false} RunPadded(r: Reg, b: Bits)
    requires |b| <= 16
    ensures Run(r, b) == Run(Xor(r, Pad(b)), Zeros(|b|))
    decreases |b|
  {
    if b == [] {
      assert Xor(r, Pad(b)) == r;
    } else {
      RunPadded(Step(r, b[0]), b[1..]);
      StepPadded(r, b);
      hide Step, Pad, Xor;
      assert Zeros(|b|)[1..] == Zeros(|b| - 1);
    }
  }

  lemma StepPadded(r: Reg, b: Bits)
    requires 1 <= |b| <= 16
    ensures Xor(Step(r, b[0]), Pad(b[1..])) == Step(Xor(r, Pad(b)), false)
  {
    var x, y := Xor(Step(r, b[0]), Pad(b[1..])), Step(Xor(r, Pad(b)), false);
    assert forall i | 0 <= i < 16 :: x[i] == y[i];
  }

  /** Up to sixteen consecutive bits are determined by the registers around them. */
  lemma WindowDetermined(r: Reg, a: Bits, b: Bits)
    requires |a| == |b| <= 16
    requires Run(r, a) == Run(r, b)
    ensures a == b
  {
    RunPadded(r, a);
    RunPadded(r, b);
    var x, y := Xor(r, Pad(a)), Xor(r, Pad(b));
    RunInjective(x, y, Zeros(|a|));
    forall i | 0 <= i < |a|
      ensures a[i] == b[i]
    {
      assert x[i] == (r[i] != a[i]) && y[i] == (r[i] != b[i]);
    }
  }

  /** Burst detection: two frames of one length that differ only inside a window of
      sixteen consecutive bits cannot leave the same register. */
  lemma BurstDetected(r: Reg, a: Bits, b: Bits, start: nat, width: nat)
    requires |a| == |b| && width <= 16 && start + width <= |a|
    requires forall i | 0 <= i < |a| && !(start <= i < start + width) :: a[i] == b[i]
    requires Run(r, a) == Run(r, b)
    ensures a == b
  {
    var end := start + width;
    AgreeOutside(a, b, start, end);
    SplitEqual(r, a, b, start, end);
    SplitAt(a, start, end);
    SplitAt(b, start, end);
  }

  lemma AgreeOutside(a: Bits, b: Bits, i: nat, j: nat)
    requires |a| == |b| && i <= j <= |a|
    requires forall k | 0 <= k < |a| && !(i <= k < j) :: a[k] == b[k]
    ensures a[..i] == b[..i] && a[j..] == b[j..]
  {
  }

  lemma SplitAt(a: Bits, i: nat, j: nat)
    requires i <= j <= |a|
    ensures a == a[..i] + (a[i..j] + a[j..])
  {
  }

  lemma SplitEqual(r: Reg, a: Bits, b: Bits, i: nat, j: nat)
    requires |a| == |b| && i <= j <= |a| && j - i <= 16
    requires a[..i] == b[..i] && a[j..] == b[j..]
    requires Run(r, a) == Run(r, b)
    ensures a[i..j] == b[i..j]
  {
    RunThree(r, a, i, j);
    RunThree(r, b, i, j);
    var s := Run(r, a[..i]);
    RunInjective(Run(s, a[i..j]), Run(s, b[i..j]), a[j..]);
    WindowDetermined(s, a[i..j], b[i..j]);
  }

  lemma RunThree(r: Reg, a: Bits, i: nat, j: nat)
    requires i <= j <= |a|
    ensures Run(r, a) == Run(Run(Run(r, a[..i]), a[i..j]), a[j..])
  {
    assert a == a[..j] + a[j..];
    RunConcat(r, a[..j], a[j..]);
    assert a[..j] == a[..i] + a[i..j];
    RunConcat(r, a[..i], a[i..j]);
  }

  // ----------------------------------------------------------------------- parity

  function Parity(bits: Bits): bool {
    bits != [] && bits[0] != Parity(bits[1..])
  }

  lemma {:induction false} ParityXor(a: Bits, b: Bits)
    requires |a| == |b|
    ensures Parity(Xor(a, b)) == (Parity(a) != Parity(b))
    decreases |a|
  {
    if a != [] {
      assert Xor(a, b)[1..] == Xor(a[1..], b[1..]);
      ParityXor(a[1..], b[1..]);
    }
  }

  lemma {:induction false} ParitySnoc(a: Bits, b: bool)
    ensures Parity(a + [b]) == (Parity(a) != b)
  {
    if a == [] {
      assert ([] + [b])[1..] == [];
    } else {
      assert (a + [b])[1..] == a[1..] + [b];
      ParitySnoc(a[1..], b);
    }
  }

  lemma {:induction false} ParityZeros(n: nat)
    ensures !Parity(Zeros(n))
  {
    if n != 0 {
      assert Zeros(n)[1..] == Zeros(n - 1);
      ParityZeros(n - 1);
    }
  }

  lemma {:induction false} ParityConcat(a: Bits, b: Bits)
    ensures Parity(a + b) == (Parity(a) != Parity(b))
  {
    if a == [] {
      assert a + b == b;
    } else {
      assert (a + b)[1..] == a[1..] + b;
      ParityConcat(a[1..], b);
    }
  }

  lemma ParityGenerator()
    ensures Parity(GENERATOR)
  {
    hide Parity;
    var x, y, z := Zeros(3) + [true], Zeros(6) + [true], Zeros(4) + [true];
    ParityZeros(3);
    ParityZeros(6);
    ParityZeros(4);
    ParitySnoc(Zeros(3), true);
    ParitySnoc(Zeros(6), true);
    ParitySnoc(Zeros(4), true);
    ParityConcat(x, y);
    ParityConcat(x + y, z);
    assert GENERATOR == x + y + z;
  }

  lemma StepParity(r: Reg, b: bool)
    ensures Parity(Step(r, b)) == (Parity(r) != b)
  {
    var t := r[1..] + [false];
    ParitySnoc(r[1..], false);
    ParityGenerator();
    ParityXor(t, GENERATOR);
  }

  lemma {:induction false} RunParity(r: Reg, bits: Bits)
    ensures Parity(Run(r, bits)) == (Parity(r) != Parity(bits))
    decreases |bits|
  {
    if bits != [] {
      StepParity(r, bits[0]);
      RunParity(Step(r, bits[0]), bits[1..]);
    }
  }

  /** The generator has the factor x + 1, so an odd number of wrong bits anywhere in
      a frame of any length is always detected. */
  lemma OddErrorsDetected(r: Reg, a: Bits, b: Bits)
    requires |a| == |b| && Parity(Xor(a, b))
    ensures Run(r, a) != Run(r, b)
  {
    RunParity(r, a);
    RunParity(r, b);
    ParityXor(a, b);
  }

  // ----------------------------------------------------------------------- residue

  /** The octets the frame writer sends for a payload: the payload, then the high and
      the low octet of its check sequence. */
  function Closed(words: seq<nat>): seq<nat> {
    words + [Value(Fcs16(words)[..8]), Value(Fcs16(words)[8..])]
  }

  lemma FourZeros(r: Reg)
    ensures Run(r, Zeros(4)) == Fold(r, r[..4])
  {
    assert Xor(r[..4], Zeros(4)) == r[..4];
    RunFolds(r, Zeros(4), r[..4]);
  }

  const R1: Reg := [false, false, false, false, true, true, true, false,
                    false, false, false, true, true, true, true, true]
  const R2: Reg := [true, true, true, false, false, false, false, true,
                    true, true, true, true, false, false, false, false]
  const R3: Reg := [true, true, true, true, true, true, true, false,
                    true, true, false, false, true, true, true, false]

  lemma FoldConstant0()
    ensures Fold(Ones(16), Ones(16)[..4]) == R1
  {
    var f := [true, true, true, true];
    assert Ones(16)[..4] == f;
    FoldCells(Ones(16), f);
    assert forall i | 0 <= i < 16 :: Fold(Ones(16), f)[i] == R1[i];
  }

  lemma FoldConstant1()
    ensures Fold(R1, R1[..4]) == R2
  {
    var f := [false, false, false, false];
    assert R1[..4] == f;
    FoldCells(R1, f);
    assert forall i | 0 <= i < 16 :: Fold(R1, f)[i] == R2[i];
  }

  lemma FoldConstant2()
    ensures Fold(R2, R2[..4]) == R3
  {
    var f := [true, true, true, false];
    assert R2[..4] == f;
    FoldCells(R2, f);
    assert forall i | 0 <= i < 16 :: Fold(R2, f)[i] == R3[i];
  }

  lemma FoldConstant3()
    ensures Fold(R3, R3[..4]) == RESIDUE
  {
    var f := [true, true, true, true];
    assert R3[..4] == f;
    FoldCells(R3, f);
    assert forall i | 0 <= i < 16 :: Fold(R3, f)[i] == RESIDUE[i];
  }

  lemma SixteenZeros()
    ensures Run(Ones(16), Zeros(16)) == RESIDUE
  {
    var z4 := Zeros(4);
    assert Zeros(16) == (z4 + z4) + (z4 + z4);
    RunConcat(Ones(16), z4 + z4, z4 + z4);
    RunConcat(Ones(16), z4, z4);
    RunConcat(R2, z4, z4);
    FourZeros(Ones(16));
    FourZeros(R1);
    FourZeros(R2);
    FourZeros(R3);
    FoldConstant0();
    FoldConstant1();
    FoldConstant2();
    FoldConstant3();
  }

  lemma GoodMeansResidue(y: Reg)
    ensures Not(y) == GOOD <==> y == RESIDUE
  {
    assert Not(RESIDUE) == GOOD && Not(GOOD) == RESIDUE;
    assert Not(Not(y)) == y;
  }

  /** The last sixteen bits of a correct frame are the complement of the register
      in front of them. */
  lemma ResidueExactly(r: Reg, b: Reg)
    ensures Run(r, b) == RESIDUE <==> b == Not(r)
  {
    assert Pad(b) == b;
    RunPadded(r, b);
    SixteenZeros();
    XorIsOnes(r, b);
    if Run(Xor(r, b), Zeros(16)) == RESIDUE {
      RunInjective(Xor(r, b), Ones(16), Zeros(16));
    }
  }

  lemma XorIsOnes(r: Reg, b: Reg)
    ensures Xor(r, b) == Ones(16) <==> b == Not(r)
  {
    var x := Xor(r, b);
    if x == Ones(16) {
      assert forall i | 0 <= i < 16 :: x[i];
    }
  }

  /** A frame passes the receiver's test exactly when its last two octets are the
      check sequence of the rest, high octet first. */
  lemma GoodExactlyWhenClosed(words: seq<nat>, h: nat, l: nat)
    ensures Fcs16(words + [h, l]) == GOOD
       <==> OctetBits(h) == Fcs16(words)[..8] && OctetBits(l) == Fcs16(words)[8..]
  {
    var r := Run(Ones(16), FrameBits(words));
    var hl := OctetBits(h) + OctetBits(l);
    FrameBitsConcat(words, [h, l]);
    assert [h, l] == [h] + [l];
    FrameBitsConcat([h], [l]);
    FrameBitsOne(h);
    FrameBitsOne(l);
    RunConcat(Ones(16), FrameBits(words), hl);
    ResidueExactly(r, hl);
    GoodMeansResidue(Run(r, hl));
    assert Not(r) == Fcs16(words)[..8] + Fcs16(words)[8..];
    assert OctetBits(h) == hl[..8] && OctetBits(l) == hl[8..];
  }

  lemma ClosedIsGood(words: seq<nat>)
    ensures Fcs16(Closed(words)) == GOOD
  {
    var f := Fcs16(words);
    BitsOfValue(f[..8]);
    BitsOfValue(f[8..]);
    GoodExactlyWhenClosed(words, Value(f[..8]), Value(f[8..]));
  }
}

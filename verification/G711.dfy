/** The G.711 companding laws over every integer: what encoding and decoding again does
    to a sample. */
module G711 {
  import opened Numbers

  // ------------------------------------------------------------------- bitwise helpers

  function Xor(a: nat, b: nat): nat
    decreases a + b
  {
    if a == 0 && b == 0 then 0 else (a % 2 + b % 2) % 2 + 2 * Xor(a / 2, b / 2)
  }

  lemma {:induction false} XorAssoc(a: nat, b: nat, c: nat)
    ensures Xor(Xor(a, b), c) == Xor(a, Xor(b, c))
    decreases a + b + c
  {
    hide Xor;
    if a + b + c > 0 {
      XorAssoc(a / 2, b / 2, c / 2);
      XorParts(a, b);
      XorParts(b, c);
      XorParts(Xor(a, b), c);
      XorParts(a, Xor(b, c));
      ParityAssoc(a % 2, b % 2, c % 2);
      Halves(Xor(Xor(a, b), c), Xor(a, Xor(b, c)));
    } else {
      XorNothing();
    }
  }

  lemma XorNothing()
    ensures Xor(0, 0) == 0
  {
  }

  lemma Halves(x: nat, y: nat)
    requires x % 2 == y % 2 && x / 2 == y / 2
    ensures x == y
  {
  }

  lemma ParityAssoc(a: nat, b: nat, c: nat)
    requires a < 2 && b < 2 && c < 2
    ensures ((a + b) % 2 + c) % 2 == (a + (b + c) % 2) % 2
  {
  }

  lemma XorParts(a: nat, b: nat)
    ensures Xor(a, b) % 2 == (a % 2 + b % 2) % 2 && Xor(a, b) / 2 == Xor(a / 2, b / 2)
  {
    XorSplit(a, b);
    hide Xor;
    LowBit((a % 2 + b % 2) % 2, Xor(a / 2, b / 2));
  }

  lemma XorSplit(a: nat, b: nat)
    ensures Xor(a, b) == (a % 2 + b % 2) % 2 + 2 * Xor(a / 2, b / 2)
  {
    if a + b == 0 {
      XorNothing();
    }
  }

  lemma LowBit(b: nat, h: nat)
    requires b < 2
    ensures (b + 2 * h) % 2 == b && (b + 2 * h) / 2 == h
  {
  }

  /** The masks of A-law and how they combine. */
  lemma Masks()
    ensures Xor(0xD5, 0x55) == 0x80 && Xor(0x55, 0x55) == 0 && Xor(0x80, 0x55) == 0xD5
    ensures Xor(0xD5, 0x80) == 0x55 && Xor(0x55, 0x80) == 0xD5
  {
    TopBit(0x55);
    hide Xor;
    XorComm(0x55, 0x80);
    XorSelf(0x55);
    XorSelf(0x80);
    XorZero(0x55);
    XorZero(0x80);
    XorAssoc(0x55, 0x80, 0x80);
    XorAssoc(0x80, 0x55, 0x55);
  }

  lemma {:induction false} XorComm(a: nat, b: nat)
    ensures Xor(a, b) == Xor(b, a)
    decreases a + b
  {
    if a + b > 0 {
      XorComm(a / 2, b / 2);
    }
  }

  lemma {:induction false} XorSelf(a: nat)
    ensures Xor(a, a) == 0
  {
    if a > 0 {
      XorSelf(a / 2);
    }
  }

  lemma {:induction false} XorZero(a: nat)
    ensures Xor(a, 0) == a
  {
    if a > 0 {
      XorZero(a / 2);
    }
  }

  /** Adding a bit above the number. */
  lemma {:induction false} XorTop(a: nat, n: nat)
    requires a < Pow2(n)
    ensures Xor(a, Pow2(n)) == a + Pow2(n)
  {
    hide Xor;
    if n > 0 {
      var p := Pow2(n - 1);
      assert Pow2(n) == 2 * p;
      XorTop(a / 2, n - 1);
      LowBit(0, p);
      XorParts(a, Pow2(n));
      TopAdded(a, p, Xor(a, Pow2(n)));
    } else {
      assert Pow2(0) == 1;
      XorOne();
    }
  }

  lemma XorOne()
    ensures Xor(0, 1) == 1
  {
    XorNothing();
  }

  lemma TopAdded(a: nat, p: nat, x: nat)
    requires x % 2 == a % 2 && x / 2 == a / 2 + p
    ensures x == a + 2 * p
  {
  }

  /** Complementing the low bits. */
  lemma {:induction false} XorOnes(a: nat, n: nat)
    requires a < Pow2(n)
    ensures Xor(a, Pow2(n) - 1) == Pow2(n) - 1 - a
  {
    hide Xor;
    if n > 0 {
      var p := Pow2(n - 1);
      assert Pow2(n) == 2 * p;
      XorOnes(a / 2, n - 1);
      LowBit(1, p - 1);
      XorParts(a, Pow2(n) - 1);
      OneMoreBit(a, p, Xor(a, Pow2(n) - 1));
    } else {
      assert Pow2(0) == 1;
      XorNothing();
    }
  }

  lemma OneMoreBit(a: nat, p: nat, x: nat)
    requires a < 2 * p && x % 2 == (a % 2 + 1) % 2 && x / 2 == p - 1 - a / 2
    ensures x == 2 * p - 1 - a
  {
  }

  // -------------------------------------------------------------------------- segments

  const SEG_U: seq<int> := [0x3F, 0x7F, 0xFF, 0x1FF, 0x3FF, 0x7FF, 0xFFF, 0x1FFF]
  const SEG_A: seq<int> := [0x1F, 0x3F, 0x7F, 0xFF, 0x1FF, 0x3FF, 0x7FF, 0xFFF]

  /** The first table entry, from `i` on, that is not below `val`. */
  function SegFrom(val: int, table: seq<int>, i: nat): (r: nat)
    requires i <= |table|
    ensures i <= r <= |table|
    ensures forall j | i <= j < r :: table[j] < val
    ensures r < |table| ==> val <= table[r]
    decreases |table| - i
  {
    if i == |table| || val <= table[i] then i else SegFrom(val, table, i + 1)
  }

  method Seg(val: int, table: seq<int>) returns (r: nat)
    ensures r == SegFrom(val, table, 0)
  {
    for i := 0 to |table|
      invariant SegFrom(val, table, 0) == SegFrom(val, table, i)
    {
      if val <= table[i] {
        return i;
      }
    }
    return |table|;
  }

  // ---------------------------------------------------------------------------- mu-law

  function Min(a: int, b: int): int {
    if a < b then a else b
  }

  /** The code of a biased magnitude: segment and four bits of it. */
  function MuCode(m: nat): nat {
    var s := SegFrom(m, SEG_U, 0);
    if s >= 8 then 0x7F else 16 * s + m / Pow2(s + 1) % 16
  }

  function MuMagnitude(v: int): nat {
    var w := v / 4;
    Min(if w < 0 then -w else w, 8159) + 33
  }

  function LinToMu(v: int): nat {
    Xor(MuCode(MuMagnitude(v)), if v / 4 < 0 then 0x7F else 0xFF)
  }

  function MuToLin(code: int): int {
    MuField((-code - 1) % 256)
  }

  function MuField(u: nat): int {
    var t := (u % 16 * 8 + 0x84) * Pow2(u / 16 % 8);
    if u / 128 % 2 == 1 then 0x84 - t else t - 0x84
  }

  /** Where the cell of a code starts. */
  function MuStart(c: nat): nat {
    (16 + c % 16) * Pow2(c / 16 + 1)
  }

  lemma Cells(c: nat)
    ensures MuStart(c + 1) == MuStart(c) + Pow2(c / 16 + 1)
  {
    if c % 16 == 15 {
      assert (c + 1) / 16 == c / 16 + 1 && (c + 1) % 16 == 0;
    } else {
      assert (c + 1) / 16 == c / 16 && (c + 1) % 16 == c % 16 + 1;
      var p := Pow2(c / 16 + 1);
      assert (16 + (c % 16 + 1)) * p == (16 + c % 16) * p + p;
    }
  }

  lemma {:induction false} MuStartsAscend(c: nat, d: nat)
    requires c <= d
    ensures MuStart(c) <= MuStart(d) && (c < d ==> MuStart(c) < MuStart(d))
    decreases d - c
  {
    if c < d {
      MuStartsAscend(c, d - 1);
      Cells(d - 1);
    }
  }

  /** A magnitude lies in the cell of its code; only the clip value is above the last. */
  lemma MuCell(m: nat)
    requires 33 <= m <= 8192
    ensures MuCode(m) < 128 && MuStart(MuCode(m)) <= m && (m < 8192 ==> m < MuStart(MuCode(m) + 1))
    ensures m == 8192 ==> MuCode(m) == 127
  {
    var s := SegFrom(m, SEG_U, 0);
    Pow2Values();
    if s >= 8 {
      assert MuCode(m) == 127;
    } else {
      var p := Pow2(s + 1);
      MuQuotient(m, s, p);
      var c := MuCode(m);
      assert c / 16 == s && c % 16 == m / p - 16;
      Cells(c);
      Bracket(m, p);
    }
  }

  lemma Bracket(m: nat, p: nat)
    requires p >= 1
    ensures m / p * p <= m < m / p * p + p
  {
  }

  lemma MuQuotient(m: nat, s: nat, p: nat)
    requires 33 <= m <= 8191 && s == SegFrom(m, SEG_U, 0) && s < 8 && p == Pow2(s + 1)
    ensures 16 <= m / p < 32
  {
    Pow2Values();
    assert m <= SEG_U[s] && (s > 0 ==> SEG_U[s - 1] < m);
    if s == 0 { } else if s == 1 { } else if s == 2 { } else if s == 3 { }
    else if s == 4 { } else if s == 5 { } else if s == 6 { } else { assert s == 7; }
  }

  /** The cell a magnitude lies in is its code's. */
  lemma MuCellUnique(m: nat, c: nat)
    requires 33 <= m < 8192 && MuStart(c) <= m < MuStart(c + 1)
    ensures MuCode(m) == c
  {
    MuCell(m);
    var d := MuCode(m);
    if c < d {
      MuStartsAscend(c + 1, d);
    } else if d < c {
      MuStartsAscend(d + 1, c);
    }
  }

  /** What a code decodes to: four times the middle of its cell, less the bias. */
  function MuLevel(c: nat): int {
    4 * (MuStart(c) + Pow2(c / 16)) - 132
  }

  lemma Complement(x: int)
    requires 0 <= x < 256
    ensures (-x - 1) % 256 == 255 - x
  {
  }

  /** The fields of an octet whose low seven bits are `c`. */
  lemma SignFields(c: nat)
    requires c < 128
    ensures (c + 128) % 16 == c % 16 && (c + 128) / 16 % 8 == c / 16 && c / 16 % 8 == c / 16
    ensures (c + 128) / 128 % 2 == 1 && c / 128 % 2 == 0
  {
  }

  lemma MuDecodes(c: nat)
    requires c < 128
    ensures Xor(c, 0xFF) == 255 - c && MuToLin(Xor(c, 0xFF)) == MuLevel(c)
    ensures Xor(c, 0x7F) == 127 - c && MuToLin(Xor(c, 0x7F)) == -MuLevel(c)
  {
    hide Xor, MuField, MuLevel;
    MuComplements(c);
    Complement(255 - c);
    Complement(127 - c);
    MuFieldIs(c);
  }

  lemma MuComplements(c: nat)
    requires c < 128
    ensures Xor(c, 0xFF) == 255 - c && Xor(c, 0x7F) == 127 - c
  {
    Pow2Values();
    XorOnes(c, 8);
    XorOnes(c, 7);
  }

  lemma MuFieldIs(c: nat)
    requires c < 128
    ensures MuField(c) == MuLevel(c) && MuField(c + 128) == -MuLevel(c)
  {
    hide MuLevel, Pow2;
    MuFields(c);
    SignFields(c);
  }

  lemma MuFields(c: nat)
    ensures (c % 16 * 8 + 0x84) * Pow2(c / 16) - 0x84 == MuLevel(c)
  {
    var k, p := c % 16, Pow2(c / 16);
    assert Pow2(c / 16 + 1) == 2 * p;
    assert (16 + k) * (2 * p) == 32 * p + 2 * (k * p);
    assert (k * 8 + 0x84) * p == 8 * (k * p) + 0x84 * p;
  }

  function MuRoundTrip(v: int): int {
    MuToLin(LinToMu(v))
  }

  function Signed(neg: bool, x: int): int {
    if neg then -x else x
  }

  lemma MuRoundTripIs(v: int)
    ensures MuCode(MuMagnitude(v)) < 128
    ensures MuRoundTrip(v) == Signed(v < 0, MuLevel(MuCode(MuMagnitude(v))))
  {
    MuCell(MuMagnitude(v));
    MuDecodes(MuCode(MuMagnitude(v)));
  }

  lemma MuLevelsAscend(c: nat, d: nat)
    requires c <= d
    ensures 0 <= MuLevel(c) <= MuLevel(d)
  {
    if c < d {
      MuStartsAscend(c + 1, d);
      Cells(c);
      assert Pow2(c / 16 + 1) == 2 * Pow2(c / 16);
    }
    MuStartsAscend(0, c);
    assert MuStart(0) == 32 by { Pow2Values(); }
  }

  lemma MuCodesAscend(m: nat, n: nat)
    requires 33 <= m <= n <= 8192
    ensures MuCode(m) <= MuCode(n)
  {
    hide MuCode, MuStart;
    MuCell(m);
    MuCell(n);
    if MuCode(n) < MuCode(m) {
      MuStartsAscend(MuCode(n) + 1, MuCode(m));
    }
  }

  /** Encoding and decoding never swaps two samples. */
  lemma MuMonotone(v: int, w: int)
    requires v <= w
    ensures MuRoundTrip(v) <= MuRoundTrip(w)
  {
    hide MuLevel, MuCode, MuRoundTrip;
    MuRoundTripIs(v);
    MuRoundTripIs(w);
    var m, n := MuMagnitude(v), MuMagnitude(w);
    if w < 0 {
      MuCodesAscend(n, m);
      MuLevelsAscend(MuCode(n), MuCode(m));
    } else if 0 <= v {
      MuCodesAscend(m, n);
      MuLevelsAscend(MuCode(m), MuCode(n));
    } else {
      MuLevelsAscend(MuCode(m), MuCode(m));
      MuLevelsAscend(MuCode(n), MuCode(n));
    }
  }

  /** The step of the segment a sample falls in. */
  function MuStep(v: int): int {
    8 * Pow2(MuCode(MuMagnitude(v)) / 16)
  }

  /** The error is at most half a step, and three more towards zero from below. */
  ghost predicate MuWithin(v: int) {
    var twice := 2 * (MuRoundTrip(v) - v);
    (if v >= 0 then -MuStep(v) else -MuStep(v) - 6) <= twice <= MuStep(v)
  }

  /** That holds on exactly one range of samples; and on it the step is at most a sixteenth of
      the biased magnitude. */
  lemma MuError(v: int)
    ensures MuWithin(v) <==> -32636 <= v <= 32636
    ensures 16 * MuStep(v) <= 4 * MuMagnitude(v)
  {
    hide MuCode, MuStart, Pow2, MuRoundTrip, MuMagnitude, MuLevel;
    MuRoundTripIs(v);
    MuBounds(v);
    var m := MuMagnitude(v);
    MuCell(m);
    MuCellWide(MuCode(m));
    MuLevelIs(MuCode(m));
    if m == 8192 {
      MuTop();
    }
  }

  lemma MuLevelIs(c: nat)
    ensures MuLevel(c) == 4 * (MuStart(c) + Pow2(c / 16)) - 132
  {
  }

  lemma MuTop()
    ensures MuStart(127) == 7936 && Pow2(127 / 16) == 128
  {
    Pow2Values();
  }

  /** A magnitude in terms of its sample, up to the clip. */
  lemma MuBounds(v: int)
    ensures var m := MuMagnitude(v);
            && 33 <= m <= 8192
            && (if v >= 0 then 4 * (m - 33) <= v else 4 * (m - 33) - 3 <= -v)
            && (m < 8192 ==> if v >= 0 then v <= 4 * (m - 33) + 3 else -v <= 4 * (m - 33))
  {
  }

  lemma MuCellWide(c: nat)
    ensures MuStart(c + 1) == MuStart(c) + 2 * Pow2(c / 16) && 32 * Pow2(c / 16) <= MuStart(c)
  {
    Cells(c);
    var p := Pow2(c / 16);
    assert Pow2(c / 16 + 1) == 2 * p;
    AtLeast(16 + c % 16, 16, 2 * p);
  }

  lemma AtLeast(a: nat, b: nat, p: nat)
    requires a >= b
    ensures a * p >= b * p
  {
  }

  /** A second trip changes nothing. */
  lemma MuIdempotent(v: int)
    ensures MuRoundTrip(MuRoundTrip(v)) == MuRoundTrip(v)
  {
    MuRoundTripIs(v);
    var c := MuCode(MuMagnitude(v));
    MuMiddle(c, v < 0);
    MuRoundTripIs(MuRoundTrip(v));
  }

  /** The level of a code is in the middle of its cell, so it encodes to the code again. */
  lemma MuMiddle(c: nat, neg: bool)
    requires c < 128
    ensures MuCode(MuMagnitude(Signed(neg, MuLevel(c)))) == c
    ensures MuLevel(c) >= 0 && (MuLevel(c) == 0 <==> c == 0)
    ensures Signed(neg, MuLevel(c)) / 4 < 0 <==> neg && c != 0
  {
    Pow2Values();
    var p := Pow2(c / 16);
    var mid := MuStart(c) + p;
    assert Pow2(c / 16 + 1) == 2 * p;
    Cells(c);
    MuStartsAscend(0, c);
    MuStartsAscend(c + 1, 128);
    assert MuStart(0) == 32 && MuStart(128) == 8192 by {
      assert Pow2(9) == 2 * Pow2(8);
    }
    assert c > 0 ==> MuStart(c) >= 33 by {
      if c > 0 {
        MuStartsAscend(0, c);
      }
    }
    MuFloor(c);
    assert MuMagnitude(Signed(neg, MuLevel(c))) == mid;
    MuCellUnique(mid, c);
  }

  lemma MuFloor(c: nat)
    requires c < 128
    ensures MuStart(c) + Pow2(c / 16) <= 8191
  {
    Pow2Values();
    MuStartsAscend(c + 1, 128);
    Cells(c);
    assert MuStart(128) == 8192 by {
      assert Pow2(9) == 2 * Pow2(8);
    }
    assert Pow2(c / 16 + 1) == 2 * Pow2(c / 16);
  }

  /** Every code but negative zero is what its own sample encodes to. */
  lemma MuInverse(code: nat)
    requires code < 256
    ensures LinToMu(MuToLin(code)) == code <==> code != 0x7F
  {
    Pow2Values();
    hide MuCode, MuMagnitude, MuLevel, MuToLin, Xor, Pow2;
    var neg := code < 128;
    var c := if neg then 127 - code else 255 - code;
    MuDecodes(c);
    MuMiddle(c, neg);
    MuDecodes(0);
  }

  // ----------------------------------------------------------------------------- A-law

  function ACode(m: nat): nat {
    var s := SegFrom(m, SEG_A, 0);
    if s >= 8 then 0x7F else 16 * s + (if s < 2 then m / 2 % 16 else m / Pow2(s) % 16)
  }

  function AMagnitude(v: int): nat {
    var w := v / 8;
    Min(if w >= 0 then w else -w - 1, 4095)
  }

  function LinToA(v: int): nat {
    Xor(ACode(AMagnitude(v)), if v / 8 >= 0 then 0xD5 else 0x55)
  }

  function AToLin(code: nat): int {
    AField(Xor(code, 0x55))
  }

  function AField(a: nat): int {
    var t := a % 16 * 16;
    var s := a / 16 % 8;
    var x := if s == 0 then t + 8 else if s == 1 then t + 0x108 else (t + 0x108) * Pow2(s - 1);
    if a / 128 % 2 == 1 then x else -x
  }

  /** The width of a code's cell, which the two lowest segments share. */
  function AWidth(c: nat): (p: nat)
    ensures p >= 1
  {
    Pow2(if c < 32 then 1 else c / 16)
  }

  function AStart(c: nat): nat {
    if c < 16 then 2 * c else (16 + c % 16) * AWidth(c)
  }

  lemma ACells(c: nat)
    ensures AStart(c + 1) == AStart(c) + AWidth(c)
  {
    if c < 32 {
      assert Pow2(1) == 2 && Pow2(2) == 4 by { Pow2Values(); }
    } else if c % 16 == 15 {
      assert (c + 1) / 16 == c / 16 + 1 && (c + 1) % 16 == 0;
    } else {
      assert (c + 1) / 16 == c / 16 && (c + 1) % 16 == c % 16 + 1;
      var p := Pow2(c / 16);
      assert (16 + (c % 16 + 1)) * p == (16 + c % 16) * p + p;
    }
  }

  lemma {:induction false} AStartsAscend(c: nat, d: nat)
    requires c <= d
    ensures AStart(c) <= AStart(d) && (c < d ==> AStart(c) < AStart(d))
    decreases d - c
  {
    if c < d {
      AStartsAscend(c, d - 1);
      ACells(d - 1);
    }
  }

  lemma AQuotient(m: nat, s: nat, p: nat)
    requires 32 <= m <= 4095 && s == SegFrom(m, SEG_A, 0) && p == Pow2(s)
    ensures 1 <= s < 8 && 16 <= m / p < 32
  {
    Pow2Values();
    assert s < 8 ==> m <= SEG_A[s];
    assert s > 0 ==> SEG_A[s - 1] < m;
    assert SEG_A[7] == 4095 && SEG_A[0] == 31;
    if s == 1 { } else if s == 2 { } else if s == 3 { } else if s == 4 { }
    else if s == 5 { } else if s == 6 { } else { assert s == 7; }
  }

  /** A magnitude lies in the cell of its code. */
  lemma ACell(m: nat)
    requires m <= 4095
    ensures ACode(m) < 128 && AStart(ACode(m)) <= m < AStart(ACode(m) + 1)
  {
    if m < 32 {
      assert SegFrom(m, SEG_A, 0) == 0;
      Pow2Values();
      ACells(ACode(m));
    } else {
      ACellHigh(m);
    }
  }

  lemma ACellHigh(m: nat)
    requires 32 <= m <= 4095
    ensures 16 <= ACode(m) < 128 && AStart(ACode(m)) <= m < AStart(ACode(m) + 1)
  {
    var s := SegFrom(m, SEG_A, 0);
    var p := Pow2(s);
    AQuotient(m, s, p);
    ACodeHigh(m, s, p);
    var c := ACode(m);
    hide ACode, SegFrom;
    Packed(s, m / p - 16);
    Bracket(m, p);
    assert AWidth(c) == p;
    hide AWidth, Pow2;
    ACells(c);
  }

  lemma ACodeHigh(m: nat, s: nat, p: nat)
    requires 32 <= m <= 4095 && s == SegFrom(m, SEG_A, 0) && p == Pow2(s) && 1 <= s < 8 && 16 <= m / p < 32
    ensures ACode(m) == 16 * s + (m / p - 16)
  {
    assert Pow2(1) == 2 by { Pow2Values(); }
    Sixteen(m / p);
  }

  lemma Sixteen(q: nat)
    requires 16 <= q < 32
    ensures q % 16 == q - 16
  {
  }

  lemma Packed(s: nat, k: nat)
    requires k < 16
    ensures (16 * s + k) / 16 == s && (16 * s + k) % 16 == k
  {
  }

  lemma ACellUnique(m: nat, c: nat)
    requires m <= 4095 && AStart(c) <= m < AStart(c + 1)
    ensures ACode(m) == c
  {
    ACell(m);
    var d := ACode(m);
    if c < d {
      AStartsAscend(c + 1, d);
    } else if d < c {
      AStartsAscend(d + 1, c);
    }
  }

  /** What a code decodes to: eight times the middle of its cell. */
  function ALevel(c: nat): int {
    8 * AStart(c) + 4 * AWidth(c)
  }

  lemma ADecodes(c: nat)
    requires c < 128
    ensures AToLin(Xor(c, 0xD5)) == ALevel(c) && AToLin(Xor(c, 0x55)) == -ALevel(c)
  {
    hide Xor, Pow2, ALevel, AField;
    Masks();
    TopBit(c);
    XorAssoc(c, 0xD5, 0x55);
    XorAssoc(c, 0x55, 0x55);
    XorZero(c);
    ASigned(c);
  }

  lemma ASigned(c: nat)
    requires c < 128
    ensures AField(c + 128) == ALevel(c) && AField(c) == -ALevel(c)
  {
    hide Pow2, ALevel;
    AFields(c);
    SignFields(c);
  }

  lemma TopBit(c: nat)
    requires c < 128
    ensures Xor(c, 0x80) == c + 128
  {
    Pow2Values();
    XorTop(c, 7);
  }

  lemma AFields(c: nat)
    requires c < 128
    ensures var t, s := c % 16 * 16, c / 16;
            (if s == 0 then t + 8 else if s == 1 then t + 0x108 else (t + 0x108) * Pow2(s - 1)) == ALevel(c)
  {
    Pow2Values();
    var k, s := c % 16, c / 16;
    if s >= 2 {
      var p := Pow2(s - 1);
      assert Pow2(s) == 2 * p;
      assert (16 + k) * (2 * p) == 32 * p + 2 * (k * p);
      assert (k * 16 + 0x108) * p == 16 * (k * p) + 0x108 * p;
    }
  }

  function ARoundTrip(v: int): int {
    AToLin(LinToA(v))
  }

  lemma ARoundTripIs(v: int)
    ensures ACode(AMagnitude(v)) < 128
    ensures ARoundTrip(v) == Signed(v < 0, ALevel(ACode(AMagnitude(v))))
  {
    ACell(AMagnitude(v));
    ADecodes(ACode(AMagnitude(v)));
    hide ACode, ALevel, AToLin;
  }

  lemma ALevelsAscend(c: nat, d: nat)
    requires c <= d
    ensures 0 <= ALevel(c) <= ALevel(d)
  {
    if c < d {
      AStartsAscend(c + 1, d);
      ACells(c);
    }
  }

  lemma ACodesAscend(m: nat, n: nat)
    requires m <= n <= 4095
    ensures ACode(m) <= ACode(n)
  {
    hide ACode, AStart;
    ACell(m);
    ACell(n);
    if ACode(n) < ACode(m) {
      AStartsAscend(ACode(n) + 1, ACode(m));
    }
  }

  lemma AMonotone(v: int, w: int)
    requires v <= w
    ensures ARoundTrip(v) <= ARoundTrip(w)
  {
    hide ALevel, ACode, ARoundTrip;
    ARoundTripIs(v);
    ARoundTripIs(w);
    var m, n := AMagnitude(v), AMagnitude(w);
    if w < 0 {
      ACodesAscend(n, m);
      ALevelsAscend(ACode(n), ACode(m));
    } else if 0 <= v {
      ACodesAscend(m, n);
      ALevelsAscend(ACode(m), ACode(n));
    } else {
      ALevelsAscend(ACode(m), ACode(m));
      ALevelsAscend(ACode(n), ACode(n));
    }
  }

  function AStep(v: int): int {
    8 * AWidth(ACode(AMagnitude(v)))
  }

  /** The error is at most half a step. */
  ghost predicate AWithin(v: int) {
    -AStep(v) <= 2 * (ARoundTrip(v) - v) <= AStep(v)
  }

  /** That holds on exactly one range of samples; and above the lowest segment the step is at
      most a sixteenth of the magnitude. */
  lemma AError(v: int)
    ensures AWithin(v) <==> -32768 <= v <= 32768
    ensures AMagnitude(v) >= 32 ==> 16 * AStep(v) <= 8 * AMagnitude(v)
  {
    hide ACode, AStart, AWidth, ARoundTrip, AMagnitude, ALevel;
    ARoundTripIs(v);
    ABounds(v);
    var m := AMagnitude(v);
    ACell(m);
    ACellWide(ACode(m));
    ALevelIs(ACode(m));
    if m == 4095 {
      ATop();
    }
  }

  lemma ALevelIs(c: nat)
    ensures ALevel(c) == 8 * AStart(c) + 4 * AWidth(c)
  {
  }

  lemma ATop()
    ensures ACode(4095) == 127 && AStart(127) == 3968 && AWidth(127) == 128
  {
    Pow2Values();
    ACells(127);
    assert AStart(127) == 3968;
    ACellUnique(4095, 127);
  }

  /** A magnitude in terms of its sample, up to the clip. */
  lemma ABounds(v: int)
    ensures var m := AMagnitude(v);
            && m <= 4095
            && (if v >= 0 then 8 * m <= v else 8 * m + 1 <= -v)
            && (m < 4095 ==> if v >= 0 then v <= 8 * m + 7 else -v <= 8 * m + 8)
  {
  }

  lemma ACellWide(c: nat)
    ensures AStart(c + 1) == AStart(c) + AWidth(c)
    ensures if c >= 16 then 16 * AWidth(c) <= AStart(c) else AStart(c + 1) <= 32
  {
    ACells(c);
    Pow2Values();
    if c >= 16 {
      AtLeast(16 + c % 16, 16, AWidth(c));
    }
  }

  /** A code's level encodes to the code again, on either side of zero. */
  lemma AMiddle(c: nat, neg: bool)
    requires c < 128
    ensures ACode(AMagnitude(Signed(neg, ALevel(c)))) == c
    ensures Signed(neg, ALevel(c)) / 8 < 0 <==> neg
  {
    ACells(c);
    AStartsAscend(c + 1, 128);
    assert AStart(128) == 4096 by { Pow2Values(); }
    var w := AWidth(c);
    assert w >= 2 && w % 2 == 0 by { Even(c); }
    var m := AMagnitude(Signed(neg, ALevel(c)));
    assert m == AStart(c) + w / 2 - if neg then 1 else 0;
    ACellUnique(m, c);
  }

  lemma Even(c: nat)
    ensures AWidth(c) >= 2 && AWidth(c) % 2 == 0
  {
  }

  lemma AIdempotent(v: int)
    ensures ARoundTrip(ARoundTrip(v)) == ARoundTrip(v)
  {
    ARoundTripIs(v);
    var c := ACode(AMagnitude(v));
    AMiddle(c, v < 0);
    ARoundTripIs(ARoundTrip(v));
    hide ACode, ALevel, AMagnitude, ARoundTrip;
  }

  /** Every code is what its own sample encodes to. */
  lemma AInverse(code: nat)
    requires code < 256
    ensures LinToA(AToLin(code)) == code
  {
    hide ACode, AMagnitude, ALevel, AToLin, Xor, Pow2;
    var a := Xor(code, 0x55);
    AOctet(code);
    var neg := a < 128;
    var c := if neg then a else a - 128;
    AMask(c, a, code);
    ADecodes(c);
    AMiddle(c, neg);
  }

  lemma AMask(c: nat, a: nat, code: nat)
    requires c < 128 && code < 256 && a == Xor(code, 0x55) && (a == c || a == c + 128)
    ensures code == Xor(c, if a == c then 0x55 else 0xD5)
  {
    hide Xor;
    Masks();
    XorAssoc(code, 0x55, 0x55);
    XorZero(code);
    TopBit(c);
    XorAssoc(c, 0x80, 0x55);
  }

  lemma {:induction false} XorBelow(a: nat, b: nat, n: nat)
    requires a < Pow2(n) && b < Pow2(n)
    ensures Xor(a, b) < Pow2(n)
  {
    if n > 0 {
      XorBelow(a / 2, b / 2, n - 1);
    }
  }

  lemma AOctet(code: nat)
    requires code < 256
    ensures Xor(code, 0x55) < 256
  {
    Pow2Values();
    XorBelow(code, 0x55, 8);
  }

  /** Below zero is the mirror of above, one step over: only the sign bit differs. */
  lemma AMirrors(v: int)
    ensures LinToA(-v - 1) == Xor(LinToA(v), 0x80)
  {
    hide ACode, Xor;
    Masks();
    assert (-v - 1) / 8 == -(v / 8) - 1;
    var c := ACode(AMagnitude(v));
    XorAssoc(c, 0xD5, 0x80);
    XorAssoc(c, 0x55, 0x80);
  }
}

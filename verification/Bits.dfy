/** Machine words as bit strings, most significant bit first.

    An `unsigned int` is a string of 32 bits and an `unsigned short` one of 16, so the
    C shifts, masks and narrowings are the sequence operations below.  Buffer elements
    that the code also counts with are integers; `BitsOf` and `Value` convert. */
module Bits {
  import opened Numbers


  type Bits = seq<bool>

  function Zeros(n: nat): (b: Bits)
    ensures |b| == n
  {
    seq(n, _ => false)
  }

  function Ones(n: nat): (b: Bits)
    ensures |b| == n
  {
    seq(n, _ => true)
  }

  function Xor(a: Bits, b: Bits): (c: Bits)
    requires |a| == |b|
    ensures |c| == |a|
    ensures forall i | 0 <= i < |a| :: c[i] == (a[i] != b[i])
  {
    seq(|a|, i requires 0 <= i < |a| => a[i] != b[i])
  }

  function Or(a: Bits, b: Bits): (c: Bits)
    requires |a| == |b|
    ensures |c| == |a|
    ensures forall i | 0 <= i < |a| :: c[i] == (a[i] || b[i])
  {
    seq(|a|, i requires 0 <= i < |a| => a[i] || b[i])
  }

  function Not(a: Bits): (c: Bits)
    ensures |c| == |a|
    ensures forall i | 0 <= i < |a| :: c[i] == !a[i]
  {
    seq(|a|, i requires 0 <= i < |a| => !a[i])
  }

  function Reverse(a: Bits): (c: Bits)
    ensures |c| == |a|
    ensures forall i | 0 <= i < |a| :: c[i] == a[|a| - 1 - i]
  {
    seq(|a|, i requires 0 <= i < |a| => a[|a| - 1 - i])
  }

  /** `a << k` at the width of `a`. */
  function Shl(a: Bits, k: nat): (c: Bits)
    requires k <= |a|
    ensures |c| == |a|
    ensures forall i | 0 <= i < |a| :: c[i] == (i + k < |a| && a[i + k])
  {
    a[k..] + Zeros(k)
  }

  /** `a >> k` at the width of `a`. */
  function Shr(a: Bits, k: nat): (c: Bits)
    requires k <= |a|
    ensures |c| == |a|
    ensures forall i | 0 <= i < |a| :: c[i] == (i >= k && a[i - k])
  {
    Zeros(k) + a[..|a| - k]
  }

  /** `a & 0xF000` on a 32-bit word. */
  function MaskF000(a: Bits): (c: Bits)
    requires |a| == 32
    ensures |c| == 32
    ensures forall i | 0 <= i < 32 :: c[i] == (16 <= i < 20 && a[i])
  {
    Zeros(16) + a[16..20] + Zeros(12)
  }

  /** `(unsigned int)s` and `(unsigned short)i`. */
  function Widen(s: Bits): (i: Bits)
    requires |s| == 16
    ensures |i| == 32
  {
    Zeros(16) + s
  }

  function Narrow(i: Bits): (s: Bits)
    requires |i| == 32
    ensures |s| == 16
  {
    i[16..]
  }

  // ---------------------------------------------------------------------- octets

  /** The low `n` bits of an element. */
  function BitsOf(w: nat, n: nat): (b: Bits)
    ensures |b| == n
  {
    if n == 0 then [] else BitsOf(w / 2, n - 1) + [w % 2 == 1]
  }

  function Value(b: Bits): (w: nat)
    ensures w < Pow2(|b|)
  {
    if b == [] then 0 else 2 * Value(b[..|b| - 1]) + (if b[|b| - 1] then 1 else 0)
  }

  lemma {:induction false} BitsOfValue(b: Bits)
    ensures BitsOf(Value(b), |b|) == b
  {
    if b != [] {
      BitsOfValue(b[..|b| - 1]);
      assert Value(b) / 2 == Value(b[..|b| - 1]);
    }
  }

  lemma ValueOfLow(w: nat, n: nat)
    ensures Value(BitsOf(w, n + 1)) == 2 * Value(BitsOf(w / 2, n)) + w % 2
  {
    assert BitsOf(w, n + 1)[..n] == BitsOf(w / 2, n);
  }

  lemma ValueOfPair(w: nat, n: nat)
    ensures Value(BitsOf(w, n + 2)) == 4 * Value(BitsOf(w / 4, n)) + w % 4
  {
    hide Value, BitsOf;
    ValueOfLow(w, n + 1);
    ValueOfLow(w / 2, n);
    assert w / 2 / 2 == w / 4;
    assert 2 * (w / 2 % 2) + w % 2 == w % 4;
  }

  lemma ValueOfNibble(w: nat, n: nat)
    ensures Value(BitsOf(w, n + 4)) == 16 * Value(BitsOf(w / 16, n)) + w % 16
  {
    hide Value, BitsOf;
    ValueOfPair(w, n + 2);
    ValueOfPair(w / 4, n);
    Quotients(w, 4);
  }

  lemma Quotients(w: nat, k: nat)
    requires k == 4 || k == 16
    ensures w / k / k == w / (k * k) && k * (w / k % k) + w % k == w % (k * k)
  {
    if k == 4 {
      assert w / 4 / 4 == w / 16 && 4 * (w / 4 % 4) + w % 4 == w % 16;
    } else {
      assert w / 16 / 16 == w / 256 && 16 * (w / 16 % 16) + w % 16 == w % 256;
    }
  }

  lemma ValueOfOctet(w: nat)
    ensures Value(OctetBits(w)) == w % 256
  {
    ValueOfNibble(w, 4);
    ValueOfNibble(w / 16, 0);
    Quotients(w, 16);
  }

  /** The low eight bits of an element. */
  function OctetBits(w: nat): (b: Bits)
    ensures |b| == 8
  {
    BitsOf(w, 8)
  }

  /** The bits a frame contributes: eight per element, whatever is above them. */
  function FrameBits(words: seq<nat>): (b: Bits)
    ensures |b| == 8 * |words|
  {
    if words == [] then [] else OctetBits(words[0]) + FrameBits(words[1..])
  }

  lemma {:induction false} FrameBitsConcat(a: seq<nat>, b: seq<nat>)
    ensures FrameBits(a + b) == FrameBits(a) + FrameBits(b)
  {
    if a == [] {
      assert a + b == b;
    } else {
      assert (a + b)[1..] == a[1..] + b;
      FrameBitsConcat(a[1..], b);
    }
  }

  lemma FrameBitsOne(w: nat)
    ensures FrameBits([w]) == OctetBits(w)
  {
    assert FrameBits([w]) == OctetBits(w) + [];
  }
}

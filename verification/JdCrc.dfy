/** The V.92 Jd message CRC: sixteen integer cells shifted in place, one bit at a time
    (section 10.1.2.3.2 of ITU-T V.34), proved to be the fax check-sequence register
    read from its other end. */
module JdCrc {
  import opened Bits
  import opened Fcs
  import opened FcsDetection

  /** The cells of a register: cell 0 is its most significant bit. */
  ghost predicate Mirrors(cells: seq<int>, r: Reg) {
    |cells| == 16 && forall i | 0 <= i < 16 :: cells[i] == if r[i] then 1 else 0
  }

  /** The bits a byte vector feeds: only the low bit of each byte counts. */
  function LowBits(input: seq<nat>): (b: Bits)
    ensures |b| == |input|
  {
    seq(|input|, i requires 0 <= i < |input| => input[i] % 2 == 1)
  }

  /** The shift as a loop. */
  method ShiftRolled(crc: array<int>)
    requires crc.Length == 16
    modifies crc
    ensures crc[15] == old(crc[15]) && forall i | 0 <= i < 15 :: crc[i] == old(crc[i + 1])
  {
    for i := 0 to 15
      invariant forall j | 0 <= j < i :: crc[j] == old(crc[j + 1])
      invariant forall j | i <= j < 16 :: crc[j] == old(crc[j])
    {
      crc[i] := crc[i + 1];
    }
  }

  /** The shift as fifteen statements. */
  method ShiftExpanded(crc: array<int>)
    requires crc.Length == 16
    modifies crc
    ensures crc[15] == old(crc[15]) && forall i | 0 <= i < 15 :: crc[i] == old(crc[i + 1])
  {
    ShiftLower(crc);
    crc[8] := crc[9];
    crc[9] := crc[10];
    crc[10] := crc[11];
    crc[11] := crc[12];
    crc[12] := crc[13];
    crc[13] := crc[14];
    crc[14] := crc[15];
  }

  /** The first eight of them. */
  method ShiftLower(crc: array<int>)
    requires crc.Length == 16
    modifies crc
    ensures forall j | 0 <= j < 8 :: crc[j] == old(crc[j + 1])
    ensures forall j | 8 <= j < 16 :: crc[j] == old(crc[j])
  {
    crc[0] := crc[1];
    crc[1] := crc[2];
    crc[2] := crc[3];
    crc[3] := crc[4];
    crc[4] := crc[5];
    crc[5] := crc[6];
    crc[6] := crc[7];
    crc[7] := crc[8];
  }

  lemma StepMirrors(c: seq<int>, d: seq<int>, r: Reg, b: bool, f: int)
    requires Mirrors(c, r) && |d| == 16
    requires f == if r[0] != b then 1 else 0
    requires forall i | 0 <= i < 15 ::
               d[i] == if i == 3 || i == 10 then (c[i + 1] + f) % 2 else c[i + 1]
    requires d[15] == f
    ensures Mirrors(d, Step(r, b))
  {
    var s := Step(r, b);
    assert forall i | 0 <= i < 15 :: s[i] == (r[i + 1] != (f == 1 && (i == 3 || i == 10)));
    assert s[15] == (f == 1);
  }

  /** The body of the packers' and unpackers' bit loops, over any number of bits. */
  method Feed(crc: array<int>, input: seq<nat>, ghost r: Reg)
    requires Mirrors(crc[..], r)
    modifies crc
    ensures Mirrors(crc[..], Run(r, LowBits(input)))
  {
    hide Run, LowBits, Mirrors;
    ghost var s := r;
    var k := 0;
    FeedNone(r, input);
    while k < |input|
      invariant 0 <= k <= |input|
      invariant s == Run(r, LowBits(input[..k])) && Mirrors(crc[..], s)
    {
      FeedOne(crc, input[k], s);
      RunOneMore(r, input, k);
      s := Step(s, input[k] % 2 == 1);
      k := k + 1;
    }
    assert input[..k] == input;
  }

  lemma FeedNone(r: Reg, input: seq<nat>)
    ensures Run(r, LowBits(input[..0])) == r
  {
  }

  /** One pass of the loop: the taps read before the shift and stored after it. */
  method FeedOne(crc: array<int>, byte: nat, ghost r: Reg)
    requires Mirrors(crc[..], r)
    modifies crc
    ensures Mirrors(crc[..], Step(r, byte % 2 == 1))
  {
    hide Step;
    ghost var before := crc[..];
    var t := byte + crc[0];
    var tap3 := (crc[4] + t) % 2;
    var tap10 := (crc[11] + t) % 2;
    ShiftRolled(crc);
    crc[3] := tap3;
    crc[10] := tap10;
    crc[15] := t % 2;
    Feedback(before, r, byte, t, tap3, tap10);
    StepMirrors(before, crc[..], r, byte % 2 == 1, t % 2);
  }

  lemma RunOneMore(r: Reg, input: seq<nat>, k: nat)
    requires k < |input|
    ensures Run(r, LowBits(input[..k + 1])) == Step(Run(r, LowBits(input[..k])), input[k] % 2 == 1)
  {
    assert LowBits(input[..k + 1]) == LowBits(input[..k]) + [input[k] % 2 == 1];
    RunSnoc(r, LowBits(input[..k]), input[k] % 2 == 1);
  }

  lemma Feedback(c: seq<int>, r: Reg, byte: nat, t: int, tap3: int, tap10: int)
    requires Mirrors(c, r) && t == byte + c[0]
    requires tap3 == (c[4] + t) % 2 && tap10 == (c[11] + t) % 2
    ensures t % 2 == if r[0] != (byte % 2 == 1) then 1 else 0
    ensures tap3 == (c[4] + t % 2) % 2 && tap10 == (c[11] + t % 2) % 2
  {
  }

  /** Sending a register's own cells, first cell first, empties it: a receiver that
      runs the CRC over payload and check bits together ends on sixteen zeros, and
      ends there for no other check bits. */
  lemma CheckBitsCancel(r: Reg, b: Reg)
    ensures Run(r, b) == Zeros(16) <==> b == r
  {
    hide Run;
    assert Pad(b) == b;
    RunPadded(r, b);
    ZerosStay(16);
    XorIsZero(r, b);
    if Run(Xor(r, b), Zeros(16)) == Zeros(16) {
      RunInjective(Xor(r, b), Zeros(16), Zeros(16));
    }
  }

  lemma XorIsZero(r: Reg, b: Reg)
    ensures Xor(r, b) == Zeros(16) <==> b == r
  {
    var x := Xor(r, b);
    if x == Zeros(16) {
      assert forall i | 0 <= i < 16 :: !x[i];
    }
  }

  lemma {:induction false} ZerosStay(n: nat)
    ensures Run(Zeros(16), Zeros(n)) == Zeros(16)
  {
    if n != 0 {
      assert Step(Zeros(16), false) == Zeros(16);
      assert Zeros(n)[1..] == Zeros(n - 1);
      ZerosStay(n - 1);
    }
  }
}

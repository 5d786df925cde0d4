/** `faxvmi_hdlc_unframe`, one line bit at a time: destuffing, flag detection, octet
    assembly, the check-sequence test and the repair pass. */
module HdlcReceiver {
  import opened Bits
  import opened Fcs
  import opened FcsDetection
  import HdlcLine

  /** `frame_size` and `max_frame`. */
  datatype Config = Config(frameSize: nat, maxFrame: nat)

  /** The receiver half of `struct faxvmi_framer`.  `frame` has one element more than
      `frame_size`, standing for the storage the repair pass reads past the buffer. */
  datatype Rx = Rx(acc: Bits, bit: nat, ones: int, flagsWanted: nat, inFrame: bool,
                   frame: seq<nat>, flen: nat, overflow: bool, out: seq<seq<nat>>)

  ghost predicate Valid(c: Config, s: Rx) {
    |s.acc| == 32 && s.bit < 8 && |s.frame| == c.frameSize + 1 && c.frameSize >= 1
    && s.flen <= c.frameSize && (s.inFrame ==> s.flen >= 1)
  }

  /** The state `FAXVMI_create` leaves: two opening flags wanted, nothing assembled. */
  function Created(c: Config): Rx {
    Rx(Ones(32), 0, 0, 2, false, seq(c.frameSize + 1, _ => 0), 0, false, [])
  }

  // ----------------------------------------------------------------- the repair pass

  const ADDRESS: nat := 0xFF
  const CONTROL: nat := 0xC8
  const MAX_BIT_SHIFT: nat := 7

  predicate Good(frame: seq<nat>, n: nat)
    requires n <= |frame|
  {
    Fcs16(frame[..n]) == GOOD
  }

  /** `f` is `g`, perhaps with the address octet forced, perhaps also the control octet. */
  ghost predicate Forced(f: seq<nat>, g: seq<nat>) {
    |f| == |g| >= 2 && (f == g || f == g[0 := ADDRESS] || f == g[0 := ADDRESS][1 := CONTROL])
  }

  /** The three readings tried in order: as it is, with the address octet forced, with
      the control octet forced too.  Failure puts both octets back. */
  function Attempt(frame: seq<nat>, n: nat): (r: (bool, seq<nat>))
    requires n <= |frame| && |frame| >= 2
    ensures |r.1| == |frame|
    ensures r.0 ==> Good(r.1, n)
    ensures !r.0 ==> r.1 == frame
    ensures Forced(r.1, frame)
  {
    var first := frame[0 := ADDRESS];
    var second := first[1 := CONTROL];
    if Good(frame, n) then (true, frame)
    else if Good(first, n) then (true, first)
    else if Good(second, n) then (true, second)
    else (false, frame)
  }

  /** One octet moved one bit to the left, its last bit coming from the next octet. */
  function ShiftedOctet(here: nat, next: nat): nat {
    Value(OctetBits(here)[1..] + [OctetBits(next)[0]])
  }

  /** The whole buffer walked one bit to the left over `len` octets. */
  function Shifted(frame: seq<nat>, len: nat): (r: seq<nat>)
    requires len < |frame|
    ensures |r| == |frame|
  {
    seq(|frame|, i requires 0 <= i < |frame| =>
      if i < len then ShiftedOctet(frame[i], frame[i + 1]) else frame[i])
  }

  function Walked(frame: seq<nat>, len: nat, times: nat): (r: seq<nat>)
    requires len < |frame|
    ensures |r| == |frame|
  {
    if times == 0 then frame else Shifted(Walked(frame, len, times - 1), len)
  }

  /** The buffer and length a repair leaves, and how many walks it took. */
  datatype Repaired = Repaired(frame: seq<nat>, len: nat, shift: nat)

  /** From the `shift`-th one-bit walk on, the three readings of `len - 1` octets after
      each walk; giving up leaves a length of zero. */
  function Realign(frame: seq<nat>, len: nat, shift: nat): (r: Repaired)
    requires 1 <= len < |frame| && 1 <= shift <= MAX_BIT_SHIFT
    ensures |r.frame| == |frame| && shift <= r.shift <= MAX_BIT_SHIFT
    ensures r.len == 0 || (r.len == len - 1 && Good(r.frame, len - 1))
    ensures Forced(r.frame, Walked(frame, len, r.shift))
    decreases MAX_BIT_SHIFT - shift
  {
    var a := Attempt(Walked(frame, len, shift), len - 1);
    if a.0 then Repaired(a.1, len - 1, shift)
    else if shift == MAX_BIT_SHIFT then Repaired(a.1, 0, shift)
    else Realign(frame, len, shift + 1)
  }

  function Repair(frame: seq<nat>, len: nat): (r: Repaired)
    requires 1 <= len < |frame|
    ensures |r.frame| == |frame| && r.len <= len && r.shift <= MAX_BIT_SHIFT
    ensures r.len == 0 || (r.len == (if r.shift == 0 then len else len - 1) && Good(r.frame, r.len))
    ensures Forced(r.frame, Walked(frame, len, r.shift))
  {
    var a := Attempt(frame, len);
    if a.0 then Repaired(a.1, len, 0) else Realign(frame, len, 1)
  }

  // ------------------------------------------------------------------ one line bit

  /** A data bit into the accumulator, and every eighth time an octet into the frame. */
  function Push(c: Config, s: Rx, b: bool): Rx
    requires Valid(c, s)
  {
    var t := s.(acc := s.acc[1..] + [b]);
    if s.bit + 1 < 8 then t.(bit := s.bit + 1)
    else if s.flagsWanted == 0 && s.flen < c.frameSize then
      t.(bit := 0, inFrame := true, frame := s.frame[s.flen := Value(t.acc[24..])], flen := s.flen + 1)
    else t.(bit := 0)
  }

  /** A closing flag over octets that were kept. */
  function Close(c: Config, s: Rx): Rx
    requires Valid(c, s) && s.inFrame
  {
    var r := Repair(s.frame, s.flen);
    if r.len >= c.maxFrame then s.(frame := r.frame, flen := r.len, overflow := true)
    else s.(frame := r.frame, flen := 0, out := s.out + [r.frame[..r.len]])
  }

  /** `ones = (short)(ones + 1)`. */
  function Increment(ones: int): int {
    if ones == 32767 then -32768 else ones + 1
  }

  /** The bit after six ones: the end of a flag, or an abort. */
  function EndRun(c: Config, s: Rx, b: bool): (t: Rx)
    requires Valid(c, s)
    ensures Valid(c, t)
  {
    var u := if !b && s.flagsWanted != 0 then s.(flagsWanted := s.flagsWanted - 1)
             else if !b && s.inFrame then Close(c, s)
             else s;
    u.(inFrame := false, bit := 0)
  }

  function Bit(c: Config, s: Rx, b: bool): (t: Rx)
    requires Valid(c, s)
    ensures Valid(c, t)
  {
    var u := if s.ones == 5 && !b then s else if s.ones != 6 then Push(c, s, b) else EndRun(c, s, b);
    u.(ones := if b then Increment(s.ones) else 0)
  }

  function Receive(c: Config, s: Rx, bits: Bits): (t: Rx)
    requires Valid(c, s)
    ensures Valid(c, t)
    decreases |bits|
  {
    if bits == [] then s else Receive(c, Bit(c, s, bits[0]), bits[1..])
  }

  lemma {:induction false} ReceiveConcat(c: Config, s: Rx, a: Bits, b: Bits)
    requires Valid(c, s)
    ensures Receive(c, s, a + b) == Receive(c, Receive(c, s, a), b)
    decreases |a|
  {
    if a == [] {
      assert a + b == b;
    } else {
      assert (a + b)[1..] == a[1..] + b;
      ReceiveConcat(c, Bit(c, s, a[0]), a[1..], b);
    }
  }

  // ------------------------------------------------------------ soundness, any input

  ghost predicate Checked(out: seq<seq<nat>>) {
    forall i | 0 <= i < |out| :: out[i] == [] || Fcs16(out[i]) == GOOD
  }

  /** Whatever bits arrive, a frame handed on has a good check sequence or length zero,
      and frames already handed on are never taken back. */
  lemma {:induction false} OnlyCheckedFrames(c: Config, s: Rx, bits: Bits)
    requires Valid(c, s) && Checked(s.out)
    ensures Checked(Receive(c, s, bits).out) && s.out <= Receive(c, s, bits).out
    decreases |bits|
  {
    if bits != [] {
      hide Bit, Checked;
      BitChecked(c, s, bits[0]);
      OnlyCheckedFrames(c, Bit(c, s, bits[0]), bits[1..]);
    }
  }

  lemma BitChecked(c: Config, s: Rx, b: bool)
    requires Valid(c, s) && Checked(s.out)
    ensures Checked(Bit(c, s, b).out) && s.out <= Bit(c, s, b).out
  {
    if s.ones == 6 && !b && s.flagsWanted == 0 && s.inFrame {
      CloseChecked(c, s);
    }
    hide Checked, Repair, Close;
  }

  lemma CloseChecked(c: Config, s: Rx)
    requires Valid(c, s) && s.inFrame && Checked(s.out)
    ensures Checked(Close(c, s).out) && s.out <= Close(c, s).out
  {
    var r := Repair(s.frame, s.flen);
    hide Repair;
    assert r.frame[..r.len] == [] || Fcs16(r.frame[..r.len]) == GOOD;
    hide Fcs16;
  }

  lemma ShiftedOctetBits(here: nat, next: nat)
    ensures OctetBits(ShiftedOctet(here, next)) == OctetBits(here)[1..] + [OctetBits(next)[0]]
  {
    BitsOfValue(OctetBits(here)[1..] + [OctetBits(next)[0]]);
  }

  lemma FrameBitsSnoc(frame: seq<nat>, k: nat)
    requires k < |frame|
    ensures FrameBits(frame[..k + 1]) == FrameBits(frame[..k]) + OctetBits(frame[k])
  {
    assert frame[..k + 1] == frame[..k] + [frame[k]];
    FrameBitsConcat(frame[..k], [frame[k]]);
    FrameBitsOne(frame[k]);
  }

  lemma {:induction false} ShiftedBits(frame: seq<nat>, len: nat, k: nat)
    requires k <= len < |frame|
    ensures FrameBits(Shifted(frame, len)[..k]) == FrameBits(frame[..k + 1])[1..8 * k + 1]
    decreases k
  {
    var s := Shifted(frame, len);
    if k != 0 {
      assert s[k - 1] == ShiftedOctet(frame[k - 1], frame[k]);
      hide FrameBits, OctetBits, Shifted, ShiftedOctet;
      ShiftedBits(frame, len, k - 1);
      ShiftedOctetBits(frame[k - 1], frame[k]);
      FrameBitsSnoc(s, k - 1);
      FrameBitsTwo(frame, k - 1);
      var a, b, c := FrameBits(frame[..k - 1]), OctetBits(frame[k - 1]), OctetBits(frame[k]);
      ShiftJoin(a, b, c, FrameBits(s[..k - 1]), OctetBits(s[k - 1]));
      assert 8 * k + 1 == |a| + 9;
    }
  }

  lemma FrameBitsTwo(frame: seq<nat>, k: nat)
    requires k + 1 < |frame|
    ensures FrameBits(frame[..k + 1]) == FrameBits(frame[..k]) + OctetBits(frame[k])
    ensures FrameBits(frame[..k + 2]) == FrameBits(frame[..k]) + OctetBits(frame[k]) + OctetBits(frame[k + 1])
  {
    hide FrameBits, OctetBits;
    FrameBitsSnoc(frame, k);
    FrameBitsSnoc(frame, k + 1);
  }

  lemma ShiftJoin(a: Bits, b: Bits, c: Bits, p: Bits, q: Bits)
    requires |b| == |c| == 8 && p == (a + b)[1..|a| + 1] && q == b[1..] + [c[0]]
    ensures p + q == (a + b + c)[1..|a| + 9]
  {
  }

  /** `y` reads `x` from bit `from` on. */
  ghost predicate ReadsOn(x: Bits, y: Bits, from: nat) {
    |x| == |y| && forall j | 0 <= j && j + from < |x| :: y[j] == x[j + from]
  }

  lemma ReadsFurther(x: Bits, y: Bits, z: Bits, from: nat)
    requires ReadsOn(x, y, from) && ReadsOn(y, z, 1)
    ensures ReadsOn(x, z, from + 1)
  {
    forall j | 0 <= j && j + (from + 1) < |x|
      ensures z[j] == x[j + (from + 1)]
    {
      assert z[j] == y[j + 1];
      assert y[j + 1] == x[(j + 1) + from];
    }
  }

  /** After `times` walks the buffer reads the received bits from `times` on: the
      element past the end never reaches them. */
  lemma {:induction false} WalkedBits(frame: seq<nat>, len: nat, times: nat)
    requires len < |frame|
    ensures ReadsOn(FrameBits(frame[..len]), FrameBits(Walked(frame, len, times)[..len]), times)
  {
    hide FrameBits, OctetBits, Walked, Shifted, ReadsOn;
    if times == 0 {
      WalkedNone(frame, len);
    } else {
      var w := Walked(frame, len, times - 1);
      WalkedOnce(frame, len, times);
      WalkedBits(frame, len, times - 1);
      OneWalkBits(w, len);
      ReadsFurther(FrameBits(frame[..len]), FrameBits(w[..len]), FrameBits(Shifted(w, len)[..len]), times - 1);
    }
  }

  lemma WalkedNone(frame: seq<nat>, len: nat)
    requires len < |frame|
    ensures Walked(frame, len, 0) == frame
    ensures ReadsOn(FrameBits(frame[..len]), FrameBits(frame[..len]), 0)
  {
    hide FrameBits;
  }

  lemma WalkedOnce(frame: seq<nat>, len: nat, times: nat)
    requires len < |frame| && times > 0
    ensures Walked(frame, len, times) == Shifted(Walked(frame, len, times - 1), len)
  {
    hide Shifted;
  }

  lemma OneWalkBits(w: seq<nat>, len: nat)
    requires len < |w|
    ensures ReadsOn(FrameBits(w[..len]), FrameBits(Shifted(w, len)[..len]), 1)
  {
    hide FrameBits, OctetBits, Shifted;
    ShiftedBits(w, len, len);
    FrameBitsSnoc(w, len);
  }

  lemma WalkedPrefix(frame: seq<nat>, len: nat, times: nat, k: nat)
    requires len < |frame| && k <= len && times + 8 * k <= 8 * len
    ensures FrameBits(Walked(frame, len, times)[..k]) == FrameBits(frame[..len])[times..times + 8 * k]
  {
    hide FrameBits, Walked;
    var w := Walked(frame, len, times);
    WalkedBits(frame, len, times);
    assert w[..len] == w[..k] + w[k..len];
    FrameBitsConcat(w[..k], w[k..len]);
    var p, x, y := FrameBits(w[..k]), FrameBits(w[..len]), FrameBits(frame[..len]);
    forall j | 0 <= j < 8 * k
      ensures p[j] == y[times..times + 8 * k][j]
    {
      assert p[j] == x[j];
      assert x[j] == y[j + times];
    }
  }

  /** A repaired frame is the received bits read from a later bit, with nothing changed
      but the two header octets the repair may force. */
  lemma RepairReads(frame: seq<nat>, len: nat)
    requires 1 <= len < |frame|
    ensures var r := Repair(frame, len);
            var reading := Walked(frame, len, r.shift);
            && Forced(r.frame, reading)
            && (r.len != 0 ==>
                FrameBits(reading[..r.len]) == FrameBits(frame[..len])[r.shift..r.shift + 8 * r.len])
  {
    hide Repair;
    var r := Repair(frame, len);
    var reading := Walked(frame, len, r.shift);
    if r.len != 0 {
      WalkedPrefix(frame, len, r.shift, r.len);
    }
  }

  // ------------------------------------------------------------ inverting the line code

  function PushAll(c: Config, s: Rx, bits: Bits): (t: Rx)
    requires Valid(c, s)
    ensures Valid(c, t) && t.ones == s.ones
    decreases |bits|
  {
    if bits == [] then s else PushAll(c, Push(c, s, bits[0]), bits[1..])
  }

  lemma {:induction false} PushAllConcat(c: Config, s: Rx, a: Bits, b: Bits)
    requires Valid(c, s)
    ensures PushAll(c, s, a + b) == PushAll(c, PushAll(c, s, a), b)
    decreases |a|
  {
    if a == [] {
      assert a + b == b;
    } else {
      assert (a + b)[1..] == a[1..] + b;
      PushAllConcat(c, Push(c, s, a[0]), a[1..], b);
    }
  }

  lemma PushOnes(c: Config, s: Rx, b: bool, ones: int)
    requires Valid(c, s)
    ensures Valid(c, s.(ones := ones)) && Push(c, s.(ones := ones), b) == Push(c, s, b).(ones := ones)
  {
  }

  lemma {:induction false} PushAllOnes(c: Config, s: Rx, bits: Bits, ones: int)
    requires Valid(c, s)
    ensures Valid(c, s.(ones := ones)) && PushAll(c, s.(ones := ones), bits) == PushAll(c, s, bits).(ones := ones)
    decreases |bits|
  {
    if bits != [] {
      PushOnes(c, s, bits[0], ones);
      hide Push, Valid;
      PushAllOnes(c, Push(c, s, bits[0]), bits[1..], ones);
    }
  }

  /** Destuffing undoes stuffing: exactly the data bits are assembled. */
  lemma {:induction false} Destuffs(c: Config, s: Rx, bits: Bits)
    requires Valid(c, s) && 0 <= s.ones < 5
    ensures Receive(c, s, HdlcLine.Stuff(bits, s.ones))
         == PushAll(c, s, bits).(ones := HdlcLine.Run(bits, s.ones))
    decreases |bits|
  {
    if bits != [] {
      var line, rest := HdlcLine.Stuff(bits, s.ones), bits[1..];
      var t := Bit(c, s, bits[0]);
      assert line[0] == bits[0];
      if bits[0] && s.ones == 4 {
        var u := Bit(c, t, false);
        var tail := HdlcLine.Stuff(rest, 0);
        assert line[1..][1..] == tail;
        assert line[1] == false;
        assert Receive(c, s, line) == Receive(c, u, tail);
        Destuffs(c, u, rest);
        PushAllOnes(c, Push(c, s, bits[0]), rest, 0);
      } else {
        assert line[1..] == HdlcLine.Stuff(rest, t.ones);
        Destuffs(c, t, rest);
        PushAllOnes(c, Push(c, s, bits[0]), rest, t.ones);
      }
    }
  }

  /** The first bits of an octet only move the accumulator. */
  lemma {:induction false} PushQuiet(c: Config, s: Rx, bits: Bits)
    requires Valid(c, s) && s.bit + |bits| < 8
    ensures PushAll(c, s, bits) == s.(acc := s.acc[|bits|..] + bits, bit := s.bit + |bits|)
    decreases |bits|
  {
    if bits == [] {
      assert s.acc[0..] + [] == s.acc;
    } else {
      var t := Push(c, s, bits[0]);
      PushQuiet(c, t, bits[1..]);
      assert (s.acc[1..] + [bits[0]])[|bits| - 1..] + bits[1..] == s.acc[|bits|..] + bits;
    }
  }

  ghost predicate SameFrame(s: Rx, t: Rx) {
    s.frame == t.frame && s.flen == t.flen && s.out == t.out && s.overflow == t.overflow
    && s.inFrame == t.inFrame && s.flagsWanted == t.flagsWanted
  }

  lemma PushOctet(c: Config, s: Rx, w: nat)
    requires Valid(c, s) && s.bit == 0 && s.flagsWanted == 0 && s.flen < c.frameSize
    ensures var t := PushAll(c, s, OctetBits(w));
            && t == s.(acc := t.acc, inFrame := true, frame := s.frame[s.flen := w % 256], flen := s.flen + 1)
  {
    var b := OctetBits(w);
    assert b == b[..7] + [b[7]];
    PushAllConcat(c, s, b[..7], [b[7]]);
    PushQuiet(c, s, b[..7]);
    var u := PushAll(c, s, b[..7]);
    assert PushAll(c, u, [b[7]]) == Push(c, u, b[7]) by {
      assert [b[7]][1..] == [];
    }
    assert ((s.acc[7..] + b[..7])[1..] + [b[7]])[24..] == b;
    ValueOfOctet(w);
  }

  /** A frame's data bits land in the buffer, octet by octet. */
  lemma {:induction false} PushFrame(c: Config, s: Rx, octets: seq<nat>)
    requires Valid(c, s) && s.bit == 0 && s.flagsWanted == 0
    requires s.flen + |octets| <= c.frameSize
    ensures var t := PushAll(c, s, FrameBits(octets));
            && t.bit == 0 && t.flagsWanted == 0 && t.out == s.out
            && (t.inFrame <==> s.inFrame || octets != [])
            && t.flen == s.flen + |octets|
            && t.frame[..t.flen] == s.frame[..s.flen] + HdlcLine.LowOctets(octets)
    decreases |octets|
  {
    if octets != [] {
      assert FrameBits(octets) == OctetBits(octets[0]) + FrameBits(octets[1..]);
      hide FrameBits, OctetBits, PushAll;
      PushAllConcat(c, s, OctetBits(octets[0]), FrameBits(octets[1..]));
      PushOctet(c, s, octets[0]);
      var t := PushAll(c, s, OctetBits(octets[0]));
      PushFrame(c, t, octets[1..]);
      assert t.frame[..t.flen] == s.frame[..s.flen] + [octets[0] % 256];
      assert [octets[0] % 256] + HdlcLine.LowOctets(octets[1..]) == HdlcLine.LowOctets(octets);
    }
  }

  // ----------------------------------------------------------------- flags and frames

  /** Between segments: either nothing is held, or one whole frame that the next flag
      will complete. */
  ghost predicate Awaiting(c: Config, s: Rx, held: seq<seq<nat>>) {
    && Valid(c, s) && 0 <= s.ones < 5 && (s.flagsWanted == 0 ==> s.bit == 0)
    && if held == [] then s.flagsWanted <= 2 && !s.inFrame && s.flen == 0 && s.ones == 0
       else && |held| == 1 && s.flagsWanted == 0 && s.inFrame
            && 1 <= s.flen == |held[0]| < c.maxFrame
            && s.frame[..s.flen] == held[0] && Fcs16(held[0]) == GOOD
  }

  lemma {:induction false} PushHunting(c: Config, s: Rx, bits: Bits)
    requires Valid(c, s) && s.flagsWanted != 0
    ensures SameFrame(s, PushAll(c, s, bits))
    decreases |bits|
  {
    if bits != [] {
      PushHunting(c, Push(c, s, bits[0]), bits[1..]);
    }
  }

  /** A run of ones from one that is short of a flag is pushed whole. */
  lemma {:induction false} OnesArePushed(c: Config, s: Rx, n: nat)
    requires Valid(c, s) && 0 <= s.ones && s.ones + n <= 6
    ensures Receive(c, s, Ones(n)) == PushAll(c, s, Ones(n)).(ones := s.ones + n)
    decreases n
  {
    if n != 0 {
      var t := Bit(c, s, true);
      assert Ones(n)[1..] == Ones(n - 1);
      OnesArePushed(c, t, n - 1);
      PushAllOnes(c, Push(c, s, true), Ones(n - 1), t.ones);
    }
  }

  lemma FlagPrefix(c: Config, s: Rx) returns (t: Rx)
    requires Valid(c, s) && 0 <= s.ones < 5 && (s.flagsWanted == 0 ==> s.bit == 0)
    ensures t == Receive(c, s, [false] + Ones(6)) && t.ones == 6 && SameFrame(s, t)
  {
    FirstZero(c, s);
    hide Bit, Push, PushAll, Receive;
    var u := Bit(c, s, false);
    t := Receive(c, u, Ones(6));
    ReceiveConcat(c, s, [false], Ones(6));
    ReceiveOne(c, s, false);
    OnesArePushed(c, u, 6);
    if s.flagsWanted == 0 {
      PushQuiet(c, u, Ones(6));
    } else {
      PushHunting(c, u, Ones(6));
    }
  }

  /** A flag's first zero starts an octet that will not be finished. */
  lemma FirstZero(c: Config, s: Rx)
    requires Valid(c, s) && 0 <= s.ones < 5 && (s.flagsWanted == 0 ==> s.bit == 0)
    ensures var u := Bit(c, s, false);
            u.ones == 0 && SameFrame(s, u) && (s.flagsWanted == 0 ==> u.bit == 1)
  {
  }

  lemma FlagCloses(c: Config, s: Rx, held: seq<seq<nat>>) returns (t: Rx)
    requires Awaiting(c, s, held)
    ensures t == Receive(c, s, HdlcLine.FLAG)
    ensures Awaiting(c, t, []) && t.out == s.out + held
    ensures t.flagsWanted == if s.flagsWanted == 0 then 0 else s.flagsWanted - 1
  {
    AwaitingValid(c, s, held);
    hide Receive, Bit, Awaiting;
    var u := FlagPrefix(c, s);
    assert HdlcLine.FLAG == ([false] + Ones(6)) + [false];
    ReceiveConcat(c, s, [false] + Ones(6), [false]);
    ReceiveOne(c, u, false);
    t := Bit(c, u, false);
    FlagEnds(c, s, u, held);
  }

  lemma AwaitingValid(c: Config, s: Rx, held: seq<seq<nat>>)
    requires Awaiting(c, s, held)
    ensures Valid(c, s) && 0 <= s.ones < 5 && (s.flagsWanted == 0 ==> s.bit == 0)
  {
  }

  lemma ReceiveOne(c: Config, s: Rx, b: bool)
    requires Valid(c, s)
    ensures Receive(c, s, [b]) == Bit(c, s, b)
  {
    hide Bit;
    assert [b][1..] == [];
    assert Receive(c, Bit(c, s, b), []) == Bit(c, s, b);
  }

  lemma FlagEnds(c: Config, s: Rx, u: Rx, held: seq<seq<nat>>)
    requires Awaiting(c, s, held) && Valid(c, u) && SameFrame(s, u) && u.ones == 6
    ensures var t := Bit(c, u, false);
            && Awaiting(c, t, []) && t.out == s.out + held
            && t.flagsWanted == if s.flagsWanted == 0 then 0 else s.flagsWanted - 1
  {
    hide Repair, Close, Push;
    if held != [] {
      CloseHeld(c, u, held[0]);
    }
  }

  /** A held good frame is handed on as it is. */
  lemma CloseHeld(c: Config, u: Rx, f: seq<nat>)
    requires Valid(c, u) && u.inFrame && 1 <= u.flen == |f| < c.maxFrame
    requires u.frame[..u.flen] == f && Fcs16(f) == GOOD
    ensures Close(c, u) == u.(flen := 0, out := u.out + [f])
  {
    hide Fcs16, Realign;
  }

  lemma ThreeFlags(c: Config, s: Rx, held: seq<seq<nat>>) returns (t: Rx)
    requires Awaiting(c, s, held)
    ensures t == Receive(c, s, HdlcLine.FLAG + (HdlcLine.FLAG + HdlcLine.FLAG))
    ensures Awaiting(c, t, []) && t.out == s.out + held && t.flagsWanted == 0
  {
    ReceiveConcat(c, s, HdlcLine.FLAG, HdlcLine.FLAG + HdlcLine.FLAG);
    var u := FlagCloses(c, s, held);
    ReceiveConcat(c, u, HdlcLine.FLAG, HdlcLine.FLAG);
    var v := FlagCloses(c, u, []);
    t := FlagCloses(c, v, []);
  }

  /** A frame the receiver has room for and whose check sequence is good. */
  ghost predicate Deliverable(c: Config, octets: seq<nat>) {
    1 <= |octets| <= c.frameSize && |octets| < c.maxFrame && Fcs16(octets) == GOOD
  }

  lemma FrameHeld(c: Config, s: Rx, held: seq<seq<nat>>, octets: seq<nat>) returns (t: Rx)
    requires Awaiting(c, s, held) && Deliverable(c, octets)
    ensures t == Receive(c, s, HdlcLine.SegmentBits(HdlcLine.Frame(octets)))
    ensures Awaiting(c, t, [HdlcLine.LowOctets(octets)]) && t.out == s.out + held
  {
    var f, d := HdlcLine.FLAG, HdlcLine.Stuff(FrameBits(octets), 0);
    assert HdlcLine.SegmentBits(HdlcLine.Frame(octets)) == (f + (f + f)) + d;
    ReceiveConcat(c, s, f + (f + f), d);
    var u := ThreeFlags(c, s, held);
    t := Receive(c, u, d);
    assert u.ones == 0;
    Destuffs(c, u, FrameBits(octets));
    PushFrame(c, u, octets);
    HdlcLine.LowOctetBits(octets);
  }
}

/** The repair pass by its readings: which of them it takes, and which frames it restores. */
module HdlcReadings {
  import opened Bits
  import opened Fcs
  import opened FcsDetection
  import HdlcLine
  import opened HdlcReceiver
  import opened HdlcRepair
  import opened HdlcResync

  // ----------------------------------------------------------------------- the readings

  /** Reading `k` of 24: the buffer walked `k / 3` bits to the left, as it is, with the address
      octet forced, or with the control octet forced too. */
  function Reading(frame: seq<nat>, len: nat, k: nat): (r: seq<nat>)
    requires 1 <= len < |frame| && k < 24
    ensures |r| == |frame|
  {
    var w := Walked(frame, len, k / 3);
    if k % 3 == 0 then w else if k % 3 == 1 then w[0 := 0xFF] else w[0 := 0xFF][1 := 0xC8]
  }

  /** Once walked, a frame is one octet shorter. */
  function ReadLength(len: nat, k: nat): nat
    requires 1 <= len
  {
    if k < 3 then len else len - 1
  }

  ghost predicate ReadsGood(frame: seq<nat>, len: nat, k: nat)
    requires 1 <= len < |frame| && k < 24
  {
    Fcs16(Reading(frame, len, k)[..ReadLength(len, k)]) == GOOD
  }

  ghost predicate NoneBefore(frame: seq<nat>, len: nat, from: nat, k: nat)
    requires 1 <= len < |frame| && k <= 24
  {
    forall j | from <= j < k :: !ReadsGood(frame, len, j)
  }

  /** What the first good reading from `from` on leaves. */
  ghost predicate TakesFirst(frame: seq<nat>, len: nat, from: nat, r: Repaired)
    requires 1 <= len < |frame| && from < 24
  {
    && (forall k | from <= k < 24 && ReadsGood(frame, len, k) && NoneBefore(frame, len, from, k) ::
          r.frame == Reading(frame, len, k) && r.len == ReadLength(len, k))
    && (NoneBefore(frame, len, from, 24) ==> r.frame == Walked(frame, len, 7) && r.len == 0)
  }

  lemma EmptyIsBad()
    ensures Fcs16([]) != GOOD
  {
    assert FrameBits([]) == [];
    assert Fcs.Run(Ones(16), []) == Ones(16);
    assert !Fcs16([])[0] && GOOD[0];
  }

  /** The three readings after `shift` walks. */
  lemma ReadingsAt(frame: seq<nat>, len: nat, shift: nat)
    requires 1 <= len < |frame| && shift <= 7
    ensures var k, w := 3 * shift, Walked(frame, len, shift);
            && Reading(frame, len, k) == w && Reading(frame, len, k + 1) == w[0 := 0xFF]
            && Reading(frame, len, k + 2) == w[0 := 0xFF][1 := 0xC8]
            && ReadLength(len, k + 1) == ReadLength(len, k) == ReadLength(len, k + 2)
            && ReadLength(len, k) == if shift == 0 then len else len - 1
  {
    hide Walked;
    Thirds(shift);
  }

  lemma Thirds(n: nat)
    ensures 3 * n / 3 == n && (3 * n + 1) / 3 == n && (3 * n + 2) / 3 == n
    ensures 3 * n % 3 == 0 && (3 * n + 1) % 3 == 1 && (3 * n + 2) % 3 == 2
  {
  }

  lemma AttemptIs(w: seq<nat>, n: nat)
    requires n <= |w| && |w| >= 2
    ensures Attempt(w, n)
         == if Good(w, n) then (true, w)
            else if Good(w[0 := 0xFF], n) then (true, w[0 := 0xFF])
            else if Good(w[0 := 0xFF][1 := 0xC8], n) then (true, w[0 := 0xFF][1 := 0xC8])
            else (false, w)
  {
    hide Good;
  }

  lemma ReadsGoodIs(frame: seq<nat>, len: nat, k: nat, w: seq<nat>, n: nat)
    requires 1 <= len < |frame| && k < 24 && Reading(frame, len, k) == w && ReadLength(len, k) == n
    ensures ReadsGood(frame, len, k) <==> Good(w, n)
  {
    hide Fcs16, Walked;
  }

  /** What an attempt over `w` at `n` octets does, by the readings `k`, `k + 1` and `k + 2`. */
  ghost predicate AttemptTakes(frame: seq<nat>, len: nat, k: nat, w: seq<nat>, a: (bool, seq<nat>))
    requires 1 <= len < |frame| && k + 2 < 24
  {
    if ReadsGood(frame, len, k) then a == (true, Reading(frame, len, k))
    else if ReadsGood(frame, len, k + 1) then a == (true, Reading(frame, len, k + 1))
    else if ReadsGood(frame, len, k + 2) then a == (true, Reading(frame, len, k + 2))
    else a == (false, w)
  }

  /** One attempt is three readings. */
  lemma AttemptReads(frame: seq<nat>, len: nat, shift: nat)
    requires 1 <= len < |frame| && shift <= 7
    ensures var w := Walked(frame, len, shift);
            AttemptTakes(frame, len, 3 * shift, w, Attempt(w, if shift == 0 then len else len - 1))
  {
    ReadingsAt(frame, len, shift);
    hide Walked, ReadsGood, Good, Attempt, Reading;
    var k, w := 3 * shift, Walked(frame, len, shift);
    var n := ReadLength(len, k);
    AttemptIs(w, n);
    ReadsGoodIs(frame, len, k, w, n);
    ReadsGoodIs(frame, len, k + 1, w[0 := 0xFF], n);
    ReadsGoodIs(frame, len, k + 2, w[0 := 0xFF][1 := 0xC8], n);
  }

  /** The readings of an attempt that succeeds, or those after one that does not. */
  lemma TakesOrGoesOn(frame: seq<nat>, len: nat, k: nat, a: (bool, seq<nat>), r: Repaired)
    requires 1 <= len < |frame| && k + 2 < 24 && k % 3 == 0
    requires AttemptTakes(frame, len, k, Walked(frame, len, k / 3), a)
    requires a.0 ==> r.frame == a.1 && r.len == ReadLength(len, k)
    requires !a.0 && k < 21 ==> TakesFirst(frame, len, k + 3, r)
    requires !a.0 && k == 21 ==> r.frame == a.1 && r.len == 0
    ensures TakesFirst(frame, len, k, r)
  {
    hide ReadsGood, Reading, Walked;
    forall j | k <= j < 24 && ReadsGood(frame, len, j) && NoneBefore(frame, len, k, j)
      ensures r.frame == Reading(frame, len, j) && r.len == ReadLength(len, j)
    {
      if a.0 {
        assert j < k + 3;
      } else {
        assert j >= k + 3;
        assert NoneBefore(frame, len, k + 3, j);
      }
    }
    if NoneBefore(frame, len, k, 24) && k < 21 {
      assert NoneBefore(frame, len, k + 3, 24);
    }
  }

  lemma {:induction false} RealignTakes(frame: seq<nat>, len: nat, shift: nat)
    requires 1 <= len < |frame| && 1 <= shift <= 7
    ensures TakesFirst(frame, len, 3 * shift, Realign(frame, len, shift))
    decreases 7 - shift
  {
    hide Walked, Attempt, Realign, TakesFirst, AttemptTakes, Good, Forced, ReadLength, Reading, ReadsGood;
    var k, a, r := 3 * shift, Attempt(Walked(frame, len, shift), len - 1), Realign(frame, len, shift);
    AttemptReads(frame, len, shift);
    Thirds(shift);
    RealignStep(frame, len, shift);
    if shift < 7 {
      RealignTakes(frame, len, shift + 1);
      assert 3 * (shift + 1) == k + 3;
    }
    LaterLength(len, k);
    TakesOrGoesOn(frame, len, k, a, r);
  }

  lemma LaterLength(len: nat, k: nat)
    requires 1 <= len && k >= 3
    ensures ReadLength(len, k) == len - 1
  {
  }

  lemma RealignStep(frame: seq<nat>, len: nat, shift: nat)
    requires 1 <= len < |frame| && 1 <= shift <= 7
    ensures var a, r := Attempt(Walked(frame, len, shift), len - 1), Realign(frame, len, shift);
            && (a.0 ==> r.frame == a.1 && r.len == len - 1)
            && (!a.0 && shift == 7 ==> r.frame == a.1 && r.len == 0)
            && (!a.0 && shift < 7 ==> r == Realign(frame, len, shift + 1))
  {
    hide Walked, Attempt, Good, Forced;
  }

  /** The repair hands on the first good reading of the 24, and gives up with a length of zero
      exactly when there is none. */
  lemma RepairTakesFirst(frame: seq<nat>, len: nat)
    requires 1 <= len < |frame|
    ensures TakesFirst(frame, len, 0, Repair(frame, len))
    ensures Repair(frame, len).len != 0 <==> exists k | 0 <= k < 24 :: ReadsGood(frame, len, k)
  {
    hide Walked, Attempt, Realign, Repair, TakesFirst, AttemptTakes, Good, Forced, Reading, ReadsGood;
    AttemptReads(frame, len, 0);
    RepairStep(frame, len);
    RealignTakes(frame, len, 1);
    TakesOrGoesOn(frame, len, 0, Attempt(frame, len), Repair(frame, len));
    FirstOfAll(frame, len);
  }

  lemma RepairStep(frame: seq<nat>, len: nat)
    requires 1 <= len < |frame|
    ensures var a, r := Attempt(frame, len), Repair(frame, len);
            && Walked(frame, len, 0) == frame
            && if a.0 then r.frame == a.1 && r.len == len else r == Realign(frame, len, 1)
  {
    hide Attempt, Realign, Good, Forced;
  }

  lemma FirstOfAll(frame: seq<nat>, len: nat)
    requires 1 <= len < |frame| && TakesFirst(frame, len, 0, Repair(frame, len))
    ensures Repair(frame, len).len != 0 <==> exists k | 0 <= k < 24 :: ReadsGood(frame, len, k)
  {
    hide Repair, Reading;
    if k :| 0 <= k < 24 && ReadsGood(frame, len, k) {
      var first := FirstGood(frame, len, k);
      EmptyIsBad();
      hide Fcs16;
      assert Reading(frame, len, first)[..0] == [];
    }
  }

  lemma {:induction false} FirstGood(frame: seq<nat>, len: nat, k: nat) returns (first: nat)
    requires 1 <= len < |frame| && k < 24 && ReadsGood(frame, len, k)
    ensures first <= k && ReadsGood(frame, len, first) && NoneBefore(frame, len, 0, first)
  {
    hide ReadsGood;
    if j :| 0 <= j < k && ReadsGood(frame, len, j) {
      first := FirstGood(frame, len, j);
    } else {
      first := k;
    }
  }

  // -------------------------------------------------------------------- what is restored

  /** A buffer whose first octets are those of `f` but perhaps for the two header octets. */
  ghost predicate HeaderDiffers(f: seq<nat>, frame: seq<nat>) {
    && 2 <= |f| <= |frame| && frame[0] < 256 && frame[1] < 256
    && forall i | 2 <= i < |f| :: frame[i] == f[i]
  }

  lemma HeaderIsBurst(f: seq<nat>, frame: seq<nat>)
    requires HeaderDiffers(f, frame)
    ensures OneBurst(f, frame[..|f|])
  {
    hide FrameBits, OctetBits;
    var g := frame[..|f|];
    forall i | 16 <= i < 8 * |f|
      ensures FrameBits(f)[i] == FrameBits(g)[i]
    {
      FrameBitAt(f, i / 8, i % 8);
      FrameBitAt(g, i / 8, i % 8);
    }
    assert AgreeBeyond(FrameBits(f), FrameBits(g), 0, 16);
  }

  /** A good frame is the only good one behind any header. */
  lemma OnlyThisHeader(f: seq<nat>, frame: seq<nat>)
    requires Octets(f) && Good(f, |f|) && HeaderDiffers(f, frame) && Good(frame, |f|)
    ensures frame[..|f|] == f
  {
    HeaderIsBurst(f, frame);
    GoodPrefix(frame, |f|);
    hide Good, OneBurst;
    BurstBetweenGood(f, frame[..|f|]);
  }

  /** With one of the first readings good, and only the header different, the frame is back. */
  lemma HeaderComesBack(f: seq<nat>, frame: seq<nat>, k: nat)
    requires 2 <= |f| < |frame| && Octets(f) && Good(f, |f|) && k < 3 && HeaderDiffers(f, frame)
    requires Reading(frame, |f|, k)[..|f|] == f
    ensures var r := Repair(frame, |f|); r.len == |f| && r.frame[..r.len] == f
  {
    RepairTakesFirst(frame, |f|);
    FirstThree(frame, |f|);
    hide Repair, Walked, Fcs16, TakesFirst, Reading, ReadsGood, Octets;
    assert f[..|f|] == f;
    ReadsGoodIs(frame, |f|, k, Reading(frame, |f|, k), |f|);
    GoodPrefix(Reading(frame, |f|, k), |f|);
    var j := FirstGood(frame, |f|, k);
    ReadsGoodIs(frame, |f|, j, Reading(frame, |f|, j), |f|);
    OnlyThisHeader(f, Reading(frame, |f|, j));
    TakenIs(frame, |f|, j, Repair(frame, |f|));
  }

  lemma TakenIs(frame: seq<nat>, len: nat, k: nat, r: Repaired)
    requires 1 <= len < |frame| && k < 3 && TakesFirst(frame, len, 0, r)
    requires ReadsGood(frame, len, k) && NoneBefore(frame, len, 0, k)
    ensures r.frame == Reading(frame, len, k) && r.len == len
  {
    hide ReadsGood, Reading;
  }

  /** The three readings of the unshifted buffer differ from it in the header only. */
  lemma FirstThree(frame: seq<nat>, len: nat)
    requires 1 <= len < |frame|
    ensures forall k | 0 <= k < 3 ::
              && (Reading(frame, len, k)[0] == frame[0] || Reading(frame, len, k)[0] == 0xFF)
              && (Reading(frame, len, k)[1] == frame[1] || Reading(frame, len, k)[1] == 0xC8)
              && forall i | 2 <= i < |frame| :: Reading(frame, len, k)[i] == frame[i]
  {
    assert Walked(frame, len, 0) == frame;
    hide Walked;
  }

  /** Damage to the address octet alone is undone. */
  lemma AddressRestored(f: seq<nat>, w: nat, frame: seq<nat>)
    requires 2 <= |f| < |frame| && Octets(f) && Good(f, |f|) && f[0] == 0xFF && w < 256
    requires frame[..|f|] == f[0 := w]
    ensures var r := Repair(frame, |f|); r.len == |f| && r.frame[..r.len] == f
  {
    hide Good, Repair;
    assert forall i | 0 <= i < |f| :: frame[..|f|][i] == frame[i];
    assert Walked(frame, |f|, 0) == frame;
    assert frame[0 := 0xFF][..|f|] == f;
    HeaderComesBack(f, frame, 1);
  }

  /** Damage to both header octets of a frame with the standard header is undone too. */
  lemma HeaderRestored(f: seq<nat>, v: nat, w: nat, frame: seq<nat>)
    requires 2 <= |f| < |frame| && Octets(f) && Good(f, |f|) && f[0] == 0xFF && f[1] == 0xC8
    requires v < 256 && w < 256 && frame[..|f|] == f[0 := v][1 := w]
    ensures var r := Repair(frame, |f|); r.len == |f| && r.frame[..r.len] == f
  {
    hide Good, Repair;
    assert forall i | 0 <= i < |f| :: frame[..|f|][i] == frame[i];
    assert Walked(frame, |f|, 0) == frame;
    assert frame[0 := 0xFF][1 := 0xC8][..|f|] == f;
    HeaderComesBack(f, frame, 2);
  }

  // ------------------------------------------------------------------------ on the line

  /** The octets of a frame once both opening flags are in. */
  lemma FrameKept(c: Config, u: Rx, g: seq<nat>)
    requires Settled(c, u) && u.flen == 0 && 1 <= |g| <= c.frameSize && Octets(g)
    ensures var v := Receive(c, u, HdlcLine.Stuff(FrameBits(g), 0));
            Kept(c, v) && v.flen == |g| && v.frame[..|g|] == g && v.out == u.out
  {
    hide Receive, HdlcLine.Stuff, FrameBits, PushAll, HdlcLine.Run, OctetBits;
    Destuffs(c, u, FrameBits(g));
    PushFrame(c, u, g);
    SameLow(g);
    assert u.frame[..0] + HdlcLine.LowOctets(g) == g;
  }

  lemma SameLow(g: seq<nat>)
    requires Octets(g)
    ensures HdlcLine.LowOctets(g) == g
  {
  }

  /** A frame received as `g` is handed on as the repair leaves it. */
  lemma HandedOn(c: Config, s: Rx, g: seq<nat>) returns (frame: seq<nat>)
    requires Awaiting(c, s, []) && 1 <= |g| <= c.frameSize && |g| < c.maxFrame && Octets(g)
    ensures |g| < |frame| && frame[..|g|] == g
    ensures var r := Repair(frame, |g|);
            Receive(c, s, HdlcLine.SegmentBits(HdlcLine.Frame(g)) + HdlcLine.FLAG).out == s.out + [r.frame[..r.len]]
  {
    hide Receive, HdlcLine.Stuff, FrameBits, Repair, Octets;
    var f, d := HdlcLine.FLAG + (HdlcLine.FLAG + HdlcLine.FLAG), HdlcLine.Stuff(FrameBits(g), 0);
    assert HdlcLine.SegmentBits(HdlcLine.Frame(g)) + HdlcLine.FLAG == f + (d + HdlcLine.FLAG);
    ReceiveConcat(c, s, f, d + HdlcLine.FLAG);
    var u := ThreeFlags(c, s, []);
    assert u.out == s.out + [] == s.out;
    ReceiveConcat(c, u, d, HdlcLine.FLAG);
    FrameKept(c, u, g);
    var v := Receive(c, u, d);
    ClosingFlag(c, v);
    frame := v.frame;
  }

  /** A good frame whose address octet alone is damaged on the line is handed on as sent. */
  lemma AddressRestoredOnLine(c: Config, s: Rx, f: seq<nat>, w: nat)
    requires Awaiting(c, s, []) && 2 <= |f| <= c.frameSize && |f| < c.maxFrame && Octets(f) && Good(f, |f|)
    requires f[0] == 0xFF && w < 256
    ensures Receive(c, s, HdlcLine.SegmentBits(HdlcLine.Frame(f[0 := w])) + HdlcLine.FLAG).out == s.out + [f]
  {
    hide Receive, Repair, Good, Awaiting, HdlcLine.SegmentBits;
    var frame := HandedOn(c, s, f[0 := w]);
    AddressRestored(f, w, frame);
  }

  /** The first of the two opening flags is not enough: a frame behind it is lost. */
  lemma OneFlagIsNotEnough(c: Config, g: seq<nat>)
    requires 1 <= c.frameSize
    ensures Valid(c, Created(c))
    ensures Receive(c, Created(c), HdlcLine.FLAG + (HdlcLine.Stuff(FrameBits(g), 0) + HdlcLine.FLAG)).out == []
  {
    hide Receive, HdlcLine.Stuff, FrameBits, PushAll, HdlcLine.Run, Close, Push;
    var s, d := Created(c), HdlcLine.Stuff(FrameBits(g), 0);
    ReceiveConcat(c, s, HdlcLine.FLAG, d + HdlcLine.FLAG);
    QuietFlag(c, s);
    var u := Receive(c, s, HdlcLine.FLAG);
    ReceiveConcat(c, u, d, HdlcLine.FLAG);
    Destuffs(c, u, FrameBits(g));
    PushHunting(c, u, FrameBits(g));
    var v := Receive(c, u, d);
    FlagInParts(c, v);
    var w := FlagPrefix(c, v);
  }

  /** Both are: the frame is handed on. */
  lemma TwoFlagsAreEnough(c: Config, f: seq<nat>)
    requires 1 <= |f| <= c.frameSize && |f| < c.maxFrame && Octets(f) && Good(f, |f|)
    ensures Valid(c, Created(c))
    ensures var line := HdlcLine.FLAG + (HdlcLine.FLAG + (HdlcLine.Stuff(FrameBits(f), 0) + HdlcLine.FLAG));
            Receive(c, Created(c), line).out == [f]
  {
    hide Receive, HdlcLine.Stuff, FrameBits, Repair, Octets, Fcs16;
    var s, d := Created(c), HdlcLine.Stuff(FrameBits(f), 0);
    ReceiveConcat(c, s, HdlcLine.FLAG, HdlcLine.FLAG + (d + HdlcLine.FLAG));
    QuietFlag(c, s);
    var t := Receive(c, s, HdlcLine.FLAG);
    ReceiveConcat(c, t, HdlcLine.FLAG, d + HdlcLine.FLAG);
    QuietFlag(c, t);
    var u := Receive(c, t, HdlcLine.FLAG);
    ReceiveConcat(c, u, d, HdlcLine.FLAG);
    FrameKept(c, u, f);
    var v := Receive(c, u, d);
    ClosingFlag(c, v);
    GoodAtOnce(f, v.frame);
  }

  /** A frame that is good as it is stays as it is. */
  lemma GoodAtOnce(f: seq<nat>, frame: seq<nat>)
    requires 1 <= |f| < |frame| && frame[..|f|] == f && Good(f, |f|)
    ensures Repair(frame, |f|) == Repaired(frame, |f|, 0)
  {
    hide Realign;
    GoodPrefix(frame, |f|);
  }

  // ------------------------------------------------------------------- a very long mark

  /** The count of ones is a signed sixteen-bit word. */
  lemma {:induction false} OnesCounted(c: Config, s: Rx, n: nat)
    requires Valid(c, s) && -32768 <= s.ones <= 32767
    ensures var t := Receive(c, s, Ones(n));
            t.ones == (s.ones + n + 32768) % 65536 - 32768 && t.flagsWanted == s.flagsWanted
    decreases n
  {
    if n > 0 {
      OneCounted(c, s);
      assert Ones(n)[0] && Ones(n)[1..] == Ones(n - 1);
      var u := Bit(c, s, true);
      hide Bit, Receive;
      OnesCounted(c, u, n - 1);
      ReceiveFirst(c, s, Ones(n));
      OneMoreWord(s.ones, n);
    } else {
      assert Ones(0) == [];
    }
  }

  lemma OneCounted(c: Config, s: Rx)
    requires Valid(c, s) && -32768 <= s.ones <= 32767
    ensures var u := Bit(c, s, true);
            u.flagsWanted == s.flagsWanted && u.ones == if s.ones == 32767 then -32768 else s.ones + 1
  {
  }

  lemma ReceiveFirst(c: Config, s: Rx, bits: Bits)
    requires Valid(c, s) && bits != []
    ensures Receive(c, s, bits) == Receive(c, Bit(c, s, bits[0]), bits[1..])
  {
  }

  lemma OneMoreWord(ones: int, n: nat)
    requires -32768 <= ones <= 32767 && n > 0
    ensures ((if ones == 32767 then -32768 else ones + 1) + (n - 1) + 32768) % 65536 == (ones + n + 32768) % 65536
  {
    if ones == 32767 {
      assert ones + n + 32768 == (-32768 + (n - 1) + 32768) + 65536;
    }
  }

  /** So a zero after 6 ones, or 65542, or any multiple of 65536 more, is taken for the end of a
      flag, and after no other number. */
  lemma LongMarkIsFlag(c: Config, s: Rx, n: nat)
    requires Valid(c, s) && s.ones == 0 && s.flagsWanted > 0
    ensures Receive(c, s, Ones(n) + [false]).flagsWanted == if n % 65536 == 6 then s.flagsWanted - 1 else s.flagsWanted
  {
    hide Receive, Bit;
    OnesCounted(c, s, n);
    ZeroCounted(c, Receive(c, s, Ones(n)));
    ReceiveConcat(c, s, Ones(n), [false]);
    ReceiveOne(c, Receive(c, s, Ones(n)), false);
    WordIsSix(n);
  }

  lemma ZeroCounted(c: Config, s: Rx)
    requires Valid(c, s) && s.flagsWanted > 0
    ensures Bit(c, s, false).flagsWanted == if s.ones == 6 then s.flagsWanted - 1 else s.flagsWanted
  {
    hide Close;
  }

  lemma WordIsSix(n: nat)
    ensures (n + 32768) % 65536 - 32768 == 6 <==> n % 65536 == 6
  {
    var q, r := n / 65536, n % 65536;
    assert n == 65536 * q + r;
    if r < 32768 {
      assert (n + 32768) % 65536 == r + 32768;
    } else {
      assert n + 32768 == 65536 * (q + 1) + (r - 32768);
      assert (n + 32768) % 65536 == r - 32768;
    }
  }
}

/** What the repair pass, its forced readings and its walks, does to burst detection. */
module HdlcRepair {
  import opened Numbers
  import opened Bits
  import opened Fcs
  import opened FcsDetection
  import opened FcsLiterals
  import opened HdlcReceiver

  ghost predicate Octets(f: seq<nat>) {
    forall i | 0 <= i < |f| :: f[i] < 256
  }

  /** Bit strings that agree outside one window. */
  ghost predicate AgreeBeyond(a: Bits, b: Bits, start: nat, width: nat) {
    && |a| == |b| && width <= 16 && start + width <= |a|
    && forall i | 0 <= i < |a| && !(start <= i < start + width) :: a[i] == b[i]
  }

  /** One burst: frames of one length that differ inside one window of sixteen bits. */
  ghost predicate OneBurst(f: seq<nat>, g: seq<nat>) {
    |f| == |g| && exists start: nat, width: nat :: AgreeBeyond(FrameBits(f), FrameBits(g), start, width)
  }

  lemma {:induction false} FrameBitAt(words: seq<nat>, k: nat, j: nat)
    requires k < |words| && j < 8
    ensures FrameBits(words)[8 * k + j] == OctetBits(words[k])[j]
  {
    if k > 0 {
      FrameBitAt(words[1..], k - 1, j);
    }
  }

  lemma OctetOf(a: nat, b: nat)
    requires a < 256 && b < 256 && OctetBits(a) == OctetBits(b)
    ensures a == b
  {
    hide OctetBits, Value, BitsOf;
    ValueOfOctet(a);
    ValueOfOctet(b);
  }

  lemma SameBitsSameFrame(f: seq<nat>, g: seq<nat>)
    requires Octets(f) && Octets(g) && |f| == |g| && FrameBits(f) == FrameBits(g)
    ensures f == g
  {
    hide OctetBits, FrameBits;
    forall k | 0 <= k < |f|
      ensures f[k] == g[k]
    {
      forall j | 0 <= j < 8
        ensures OctetBits(f[k])[j] == OctetBits(g[k])[j]
      {
        FrameBitAt(f, k, j);
        FrameBitAt(g, k, j);
      }
      OctetOf(f[k], g[k]);
    }
  }

  /** Two good frames one burst apart are the same frame. */
  lemma BurstBetweenGood(f: seq<nat>, g: seq<nat>)
    requires Octets(f) && Octets(g) && OneBurst(f, g)
    requires Good(f, |f|) && Good(g, |g|)
    ensures f == g
  {
    assert f[..|f|] == f && g[..|g|] == g;
    var start: nat, width: nat :| AgreeBeyond(FrameBits(f), FrameBits(g), start, width);
    GoodMeansResidue(Run(Ones(16), FrameBits(f)));
    GoodMeansResidue(Run(Ones(16), FrameBits(g)));
    hide FrameBits, Run;
    BurstDetected(Ones(16), FrameBits(f), FrameBits(g), start, width);
    SameBitsSameFrame(f, g);
  }

  /** Forcing an octet to what was sent moves nothing outside the burst. */
  lemma ForcingKeepsBurst(f: seq<nat>, g: seq<nat>, k: nat)
    requires OneBurst(f, g) && k < |f|
    ensures OneBurst(f, g[k := f[k]])
  {
    hide FrameBits, OctetBits;
    var h := g[k := f[k]];
    var start: nat, width: nat :| AgreeBeyond(FrameBits(f), FrameBits(g), start, width);
    forall i | 0 <= i < 8 * |f| && !(start <= i < start + width)
      ensures FrameBits(f)[i] == FrameBits(h)[i]
    {
      FrameBitAt(f, i / 8, i % 8);
      FrameBitAt(g, i / 8, i % 8);
      FrameBitAt(h, i / 8, i % 8);
    }
    assert AgreeBeyond(FrameBits(f), FrameBits(h), start, width);
  }

  /** A frame with the standard header survives: one burst on it is refused or undone. */
  lemma HeaderProtects(f: seq<nat>, g: seq<nat>, n: nat)
    requires n == |f| >= 4 && Octets(f) && Good(f, n) && f[0] == ADDRESS && f[1] == CONTROL
    requires |g| >= n && Octets(g[..n]) && OneBurst(f, g[..n])
    ensures Attempt(g, n).0 ==> Attempt(g, n).1[..n] == f
  {
    hide Good, OneBurst;
    var h := g[..n];
    ForcingKeepsBurst(f, h, 0);
    var first := h[0 := f[0]];
    ForcingKeepsBurst(f, first, 1);
    var second := first[1 := f[1]];
    GoodPrefix(g, n);
    GoodPrefix(g[0 := ADDRESS], n);
    GoodPrefix(g[0 := ADDRESS][1 := CONTROL], n);
    assert g[0 := ADDRESS][..n] == first && g[0 := ADDRESS][1 := CONTROL][..n] == second;
    if Good(h, n) {
      BurstBetweenGood(f, h);
    } else if Good(first, n) {
      BurstBetweenGood(f, first);
    } else if Good(second, n) {
      BurstBetweenGood(f, second);
    }
  }

  lemma GoodPrefix(g: seq<nat>, n: nat)
    requires n <= |g|
    ensures Good(g, n) == Good(g[..n], n)
  {
    assert g[..n][..n] == g[..n];
  }

  // --------------------------------------------------------------- the other headers

  /** Sixteen bits that bring another register to the same place. */
  function Matching(r: Reg, from: Reg, bits: Reg): Reg {
    Xor(r, Xor(from, bits))
  }

  lemma MatchingMeets(r: Reg, from: Reg, bits: Reg)
    ensures Run(r, Matching(r, from, bits)) == Run(from, bits)
    ensures Matching(r, from, bits) == bits <==> r == from
  {
    var w := Matching(r, from, bits);
    assert Pad(w) == w && Pad(bits) == bits;
    RunPadded(r, w);
    RunPadded(from, bits);
    assert Xor(r, w) == Xor(from, bits);
    if w == bits {
      assert forall i | 0 <= i < 16 :: w[i] == bits[i];
      assert r == from;
    }
  }

  /** The two octets with given bits. */
  function Pair(w: Reg): (u: seq<nat>)
    ensures |u| == 2
  {
    [Value(w[..8]), Value(w[8..])]
  }

  lemma PairBits(w: Reg)
    ensures FrameBits(Pair(w)) == w && Octets(Pair(w))
  {
    BitsOfValue(w[..8]);
    BitsOfValue(w[8..]);
    ValueOfOctet(Value(w[..8]));
    ValueOfOctet(Value(w[8..]));
    TwoOctets(Value(w[..8]), Value(w[8..]));
    hide Value;
    assert w[..8] + w[8..] == w;
  }

  /** A frame as its header, two octets and the rest. */
  lemma FrameParts(head: seq<nat>, two: seq<nat>, rest: seq<nat>)
    ensures FrameBits(head + two + rest) == FrameBits(head) + FrameBits(two) + FrameBits(rest)
    ensures Run(Ones(16), FrameBits(head + two + rest))
         == Run(Run(Run(Ones(16), FrameBits(head)), FrameBits(two)), FrameBits(rest))
  {
    FrameBitsConcat(head + two, rest);
    FrameBitsConcat(head, two);
    RunConcat(Ones(16), FrameBits(head) + FrameBits(two), FrameBits(rest));
    RunConcat(Ones(16), FrameBits(head), FrameBits(two));
  }

  /** The bits that take the register of the standard header to the one behind `f`'s own. */
  function Disguise(f: seq<nat>): Reg
    requires |f| >= 4
  {
    Matching(Run(Ones(16), FrameBits([ADDRESS, CONTROL])), Run(Ones(16), FrameBits(f[..2])), FrameBits(f[2..4]))
  }

  /** `f` with those bits in place of its third and fourth octet. */
  function Disguised(f: seq<nat>): seq<nat>
    requires |f| >= 4
  {
    f[..2] + Pair(Disguise(f)) + f[4..]
  }

  /** The disguised frame is good once both header octets are forced. */
  lemma DisguisePasses(f: seq<nat>)
    requires |f| >= 4 && Good(f, |f|)
    ensures Good([ADDRESS, CONTROL] + Pair(Disguise(f)) + f[4..], |f|)
  {
    hide Run, FrameBits, Pair;
    var head, two, rest := f[..2], f[2..4], f[4..];
    var r, from := Run(Ones(16), FrameBits([ADDRESS, CONTROL])), Run(Ones(16), FrameBits(head));
    var w := Disguise(f);
    var h := [ADDRESS, CONTROL] + Pair(w) + rest;
    assert f[..|f|] == f == head + two + rest && h[..|f|] == h;
    FrameParts(head, two, rest);
    FrameParts([ADDRESS, CONTROL], Pair(w), rest);
    PairBits(w);
    MatchingMeets(r, from, FrameBits(two));
  }

  /** It is one burst away from `f`. */
  lemma DisguiseIsBurst(f: seq<nat>)
    requires |f| >= 4 && Octets(f)
    ensures OneBurst(f, Disguised(f)) && Octets(Disguised(f))
  {
    hide Disguise, FrameBits, Run, Pair;
    var head, two, rest := f[..2], f[2..4], f[4..];
    var w, g := Disguise(f), Disguised(f);
    PairBits(w);
    FrameParts(head, two, rest);
    FrameParts(head, Pair(w), rest);
    assert f == head + two + rest;
    BurstInside(FrameBits(head), FrameBits(two), w, FrameBits(rest));
    assert AgreeBeyond(FrameBits(f), FrameBits(g), 16, 16);
  }

  /** And it is another frame unless `f` has the standard header. */
  lemma DisguiseDiffers(f: seq<nat>)
    requires |f| >= 4 && Octets(f) && Disguised(f) == f
    ensures f[0] == ADDRESS && f[1] == CONTROL
  {
    hide FrameBits, Run, Pair;
    var head, two, w := f[..2], f[2..4], Disguise(f);
    assert Pair(w) == Disguised(f)[2..4] == two;
    PairBits(w);
    MatchingMeets(Run(Ones(16), FrameBits([ADDRESS, CONTROL])), Run(Ones(16), FrameBits(head)), FrameBits(two));
    WindowDetermined(Ones(16), FrameBits([ADDRESS, CONTROL]), FrameBits(head));
    SameBitsSameFrame([ADDRESS, CONTROL], head);
  }

  lemma BurstInside(a: Bits, x: Bits, y: Bits, b: Bits)
    requires |a| == |x| == |y| == 16
    ensures AgreeBeyond(a + x + b, a + y + b, 16, 16)
  {
  }

  /** Any other header is undone by its own repair: some burst is accepted as another frame. */
  lemma HeaderExposes(f: seq<nat>)
    requires |f| >= 4 && Octets(f) && Good(f, |f|) && !(f[0] == ADDRESS && f[1] == CONTROL)
    ensures var g := Disguised(f);
            && |g| == |f| && Octets(g) && OneBurst(f, g)
            && Attempt(g, |f|).0 && Attempt(g, |f|).1 != f
  {
    hide Good, OneBurst, Octets, Disguised, Forced;
    var n, g := |f|, Disguised(f);
    DisguiseIsBurst(f);
    DisguisePasses(f);
    DisguiseForced(f);
    NotGoodItself(f);
    if f[0] == ADDRESS {
      assert g[0 := ADDRESS] == g;
    }
  }

  lemma DisguiseForced(f: seq<nat>)
    requires |f| >= 4
    ensures var g := Disguised(f);
            && |g| == |f| && g[0] == f[0] && g[1] == f[1]
            && g[0 := ADDRESS][1 := CONTROL] == [ADDRESS, CONTROL] + Pair(Disguise(f)) + f[4..]
  {
    hide Pair, Disguise;
  }

  lemma NotGoodItself(f: seq<nat>)
    requires |f| >= 4 && Octets(f) && Good(f, |f|) && !(f[0] == ADDRESS && f[1] == CONTROL)
    ensures |Disguised(f)| == |f| && !Good(Disguised(f), |f|)
  {
    hide Good, OneBurst, Octets, Disguised;
    DisguiseIsBurst(f);
    DisguiseForced(f);
    if Disguised(f) == f {
      DisguiseDiffers(f);
    }
    if Good(Disguised(f), |f|) {
      BurstBetweenGood(f, Disguised(f));
    }
  }

  /** Whether a received buffer is refused or restored to the frame that was sent. */
  ghost predicate RefusedOrRestored(f: seq<nat>, g: seq<nat>, n: nat)
    requires n <= |g| && |g| >= 2
  {
    !Attempt(g, n).0 || Attempt(g, n).1[..n] == f
  }

  /** Every single burst on a good frame is refused or undone by the three readings exactly
      when the frame carries the header that they force. */
  lemma BurstHandledExactly(f: seq<nat>, n: nat)
    requires n == |f| >= 4 && Octets(f) && Good(f, n)
    ensures (forall g: seq<nat> | |g| >= n && Octets(g[..n]) && OneBurst(f, g[..n]) :: RefusedOrRestored(f, g, n))
       <==> f[0] == ADDRESS && f[1] == CONTROL
  {
    hide Attempt, OneBurst, Good, Octets;
    if f[0] == ADDRESS && f[1] == CONTROL {
      forall g: seq<nat> | |g| >= n && Octets(g[..n]) && OneBurst(f, g[..n])
        ensures RefusedOrRestored(f, g, n)
      {
        HeaderProtects(f, g, n);
      }
    } else {
      var g := Disguised(f);
      HeaderExposes(f);
      assert g[..n] == g;
      assert Attempt(g, n).1[..n] == Attempt(g, n).1;
      assert !RefusedOrRestored(f, g, n);
    }
  }

  // ---------------------------------------------------------------------------- walks

  /** The octets of a string of bits. */
  function OctetsOf(b: Bits): (f: seq<nat>)
    requires |b| % 8 == 0
    ensures |f| == |b| / 8
    decreases |b|
  {
    if b == [] then [] else [Value(b[..8])] + OctetsOf(b[8..])
  }

  lemma {:induction false} OctetsOfBits(b: Bits)
    requires |b| % 8 == 0
    ensures FrameBits(OctetsOf(b)) == b && Octets(OctetsOf(b))
    decreases |b|
  {
    if b != [] {
      OctetsOfBits(b[8..]);
      BitsOfValue(b[..8]);
      ValueOfOctet(Value(b[..8]));
      var f := OctetsOf(b);
      assert f[1..] == OctetsOf(b[8..]);
      hide Value, OctetsOf, OctetBits;
      assert FrameBits(f) == OctetBits(f[0]) + FrameBits(f[1..]);
      assert b[..8] + b[8..] == b;
    }
  }

  /** A frame with sixteen of its bits, seven short of the end, replaced. */
  function Replaced(f: seq<nat>, w: Reg): seq<nat>
    requires |f| >= 4
  {
    OctetsOf(Spliced(FrameBits(f), w, 8 * |f| - 23))
  }

  /** Bits with sixteen of them, from `p` on, replaced. */
  function Spliced(b: Bits, w: Bits, p: nat): (c: Bits)
    requires |w| == 16 && p + 16 <= |b|
    ensures |c| == |b|
  {
    b[..p] + w + b[p + 16..]
  }

  lemma ReplacedBits(f: seq<nat>, w: Reg)
    requires |f| >= 4
    ensures |Replaced(f, w)| == |f| && Octets(Replaced(f, w))
    ensures FrameBits(Replaced(f, w)) == Spliced(FrameBits(f), w, 8 * |f| - 23)
  {
    hide FrameBits, Spliced;
    OctetsOfBits(Spliced(FrameBits(f), w, 8 * |f| - 23));
  }

  /** Nothing changes only where the bits were there already. */
  lemma ReplacedSame(f: seq<nat>, w: Reg)
    requires |f| >= 4 && Replaced(f, w) == f
    ensures w == FrameBits(f)[8 * |f| - 23..8 * |f| - 7]
  {
    hide FrameBits, Spliced, Replaced, Octets;
    ReplacedBits(f, w);
    SpliceAt(FrameBits(f), w, 8 * |f| - 23);
  }

  lemma SpliceAt(b: Bits, w: Bits, p: nat)
    requires |w| == 16 && p + 16 <= |b|
    ensures Spliced(b, w, p)[p..p + 16] == w
    ensures forall i | 0 <= i < |b| && !(p <= i < p + 16) :: Spliced(b, w, p)[i] == b[i]
  {
  }

  lemma SpliceFront(b: Bits, w: Bits, p: nat)
    requires 1 <= p && |w| == 16 && p + 16 <= |b|
    ensures Spliced(b, w, p)[1..p + 16] == b[1..p] + w
  {
  }

  lemma ReplacedIsBurst(f: seq<nat>, w: Reg)
    requires |f| >= 4
    ensures OneBurst(f, Replaced(f, w))
  {
    hide FrameBits, Replaced, Spliced;
    ReplacedBits(f, w);
    SpliceAt(FrameBits(f), w, 8 * |f| - 23);
    assert AgreeBeyond(FrameBits(f), FrameBits(Replaced(f, w)), 8 * |f| - 23, 16);
  }

  /** What the first walk makes of it: the bits from the second to the eighth last. */
  lemma FirstWalk(f: seq<nat>, w: Reg, buffer: seq<nat>, p: nat)
    requires |f| >= 4 && |buffer| == |f| + 1 && buffer[..|f|] == Replaced(f, w) && p == 8 * |f| - 23
    ensures FrameBits(Walked(buffer, |f|, 1)[..|f| - 1]) == FrameBits(f)[1..p] + w
  {
    hide FrameBits, Replaced, Walked, Spliced;
    ReplacedSpliced(f, w, p);
    WalkedSpliced(FrameBits(f), w, Replaced(f, w), buffer, |f|, p);
  }

  lemma ReplacedSpliced(f: seq<nat>, w: Reg, p: nat)
    requires |f| >= 4 && p == 8 * |f| - 23
    ensures FrameBits(Replaced(f, w)) == Spliced(FrameBits(f), w, p)
  {
    hide FrameBits, Replaced, Spliced, Octets;
    ReplacedBits(f, w);
  }

  lemma WalkedSpliced(b: Bits, w: Reg, g: seq<nat>, buffer: seq<nat>, n: nat, p: nat)
    requires 4 <= n < |buffer| && buffer[..n] == g && p + 23 == 8 * n && p + 16 <= |b|
    requires FrameBits(g) == Spliced(b, w, p)
    ensures FrameBits(Walked(buffer, n, 1)[..n - 1]) == b[1..p] + w
  {
    hide FrameBits, Walked, Spliced;
    FirstWalkBits(buffer, g, n, p + 16);
    SpliceFront(b, w, p);
  }

  lemma Front(g: seq<nat>, x: nat)
    ensures (g + [x])[..|g|] == g
  {
  }

  lemma FirstWalkBits(buffer: seq<nat>, g: seq<nat>, n: nat, q: nat)
    requires 4 <= n < |buffer| && buffer[..n] == g && q == 8 * n - 7
    ensures FrameBits(Walked(buffer, n, 1)[..n - 1]) == FrameBits(g)[1..q]
  {
    hide FrameBits, Walked;
    WalkedPrefix(buffer, n, 1, n - 1);
    assert 1 + 8 * (n - 1) == q;
  }

  /** The check bits that make any bits in front of them good. */
  function Closing(before: Bits): Reg {
    Not(Run(Ones(16), before))
  }

  lemma ClosingIsGood(frame: seq<nat>, m: nat, before: Bits, w: Reg)
    requires m <= |frame| && FrameBits(frame[..m]) == before + w
    ensures Good(frame, m) <==> w == Closing(before)
  {
    hide FrameBits, Run;
    RunConcat(Ones(16), before, w);
    ResidueExactly(Run(Ones(16), before), w);
    GoodMeansResidue(Run(Ones(16), before + w));
  }

  /** A buffer refused as received and accepted after one walk is handed on one octet short. */
  lemma RepairWalksOnce(frame: seq<nat>, n: nat)
    requires 2 <= n < |frame| && !Attempt(frame, n).0 && Attempt(Walked(frame, n, 1), n - 1).0
    ensures Repair(frame, n).len == n - 1
  {
    hide Attempt, Walked;
  }

  /** With the forced header in place forcing it changes nothing. */
  lemma HeaderRefuses(f: seq<nat>, g: seq<nat>, x: nat)
    requires |f| >= 4 && Octets(f) && Good(f, |f|) && Octets(g) && OneBurst(f, g) && f != g
    requires g[0] == ADDRESS && g[1] == CONTROL
    ensures !Attempt(g + [x], |f|).0
  {
    assert |g| == |f|;
    hide OneBurst, Octets, Good;
    var n, buffer := |f|, g + [x];
    assert buffer[0 := ADDRESS] == buffer && buffer[1 := CONTROL] == buffer;
    assert buffer[..n] == g;
    GoodPrefix(buffer, n);
    if Good(g, n) {
      BurstBetweenGood(f, g);
    }
  }

  /** Behind an unchanged header the forced one is still there. */
  lemma HeaderUnchanged(f: seq<nat>, w: Reg)
    requires |f| >= 5 && Octets(f)
    ensures |Replaced(f, w)| == |f| && Replaced(f, w)[0] == f[0] && Replaced(f, w)[1] == f[1]
  {
    hide FrameBits, OctetBits, Replaced, Spliced;
    ReplacedBits(f, w);
    SpliceAt(FrameBits(f), w, 8 * |f| - 23);
    var g := Replaced(f, w);
    forall k | 0 <= k < 2
      ensures g[k] == f[k]
    {
      forall j | 0 <= j < 8
        ensures OctetBits(f[k])[j] == OctetBits(g[k])[j]
      {
        FrameBitAt(f, k, j);
        FrameBitAt(g, k, j);
      }
      OctetOf(f[k], g[k]);
    }
  }

  /** The bits that make the first walk good as it reads, unless they are there already. */
  lemma WalkAccepts(f: seq<nat>, x: nat)
    requires |f| >= 4
    ensures var w := Closing(FrameBits(f)[1..8 * |f| - 23]);
            |Replaced(f, w)| == |f| && Attempt(Walked(Replaced(f, w) + [x], |f|, 1), |f| - 1).0
  {
    hide FrameBits, Replaced, Walked, Closing, Good;
    var w := Closing(FrameBits(f)[1..8 * |f| - 23]);
    ReplacedBits(f, w);
    Front(Replaced(f, w), x);
    FirstWalk(f, w, Replaced(f, w) + [x], 8 * |f| - 23);
    ClosingIsGood(Walked(Replaced(f, w) + [x], |f|, 1), |f| - 1, FrameBits(f)[1..8 * |f| - 23], w);
  }

  /** The bits that make its third reading good. */
  function ForcedClosing(f: seq<nat>): Reg
    requires |f| >= 5
  {
    Closing(FrameBits([ADDRESS, CONTROL]) + FrameBits(f)[17..8 * |f| - 23])
  }

  lemma ForcedBits(frame: seq<nat>, m: nat)
    requires 2 <= m <= |frame|
    ensures FrameBits(frame[0 := ADDRESS][1 := CONTROL][..m])
         == FrameBits([ADDRESS, CONTROL]) + FrameBits(frame[..m])[16..]
  {
    hide FrameBits;
    var g := frame[0 := ADDRESS][1 := CONTROL];
    assert g[..m] == [ADDRESS, CONTROL] + frame[2..m] && frame[..m] == frame[..2] + frame[2..m];
    FrameBitsConcat([ADDRESS, CONTROL], frame[2..m]);
    FrameBitsConcat(frame[..2], frame[2..m]);
  }

  lemma ForcedWalkAccepts(f: seq<nat>, x: nat)
    requires |f| >= 5
    ensures var w := ForcedClosing(f);
            |Replaced(f, w)| == |f| && Attempt(Walked(Replaced(f, w) + [x], |f|, 1), |f| - 1).0
  {
    hide FrameBits, Replaced, Walked, Closing, Good;
    var n, b, w := |f|, FrameBits(f), ForcedClosing(f);
    ReplacedBits(f, w);
    Front(Replaced(f, w), x);
    FirstWalk(f, w, Replaced(f, w) + [x], 8 * |f| - 23);
    var walked := Walked(Replaced(f, w) + [x], n, 1);
    ForcedBits(walked, n - 1);
    assert (b[1..8 * n - 23] + w)[16..] == b[17..8 * n - 23] + w;
    var header := FrameBits([ADDRESS, CONTROL]);
    assert header + (b[17..8 * n - 23] + w) == (header + b[17..8 * n - 23]) + w;
    ClosingIsGood(walked[0 := ADDRESS][1 := CONTROL], n - 1, header + b[17..8 * n - 23], w);
  }

  /** A header and the walked one behind it never close the same way: the forced header walks
      to another. */
  lemma ClosingsDiffer(f: seq<nat>)
    requires |f| >= 5 && f[0] == ADDRESS && f[1] == CONTROL
    ensures Closing(FrameBits(f)[1..8 * |f| - 23]) != ForcedClosing(f)
  {
    hide FrameBits, OctetBits, Run;
    HeaderWalks(f);
    var b, p := FrameBits(f), 8 * |f| - 23;
    assert b[1..p] == b[1..17] + b[17..p];
    RegistersDiffer(FrameBits([ADDRESS, CONTROL]), b[1..17], b[17..p]);
  }

  lemma RegistersDiffer(x: Reg, y: Reg, rest: Bits)
    requires x != y
    ensures Closing(y + rest) != Closing(x + rest)
  {
    hide Run;
    var r, s := Run(Ones(16), x), Run(Ones(16), y);
    RunConcat(Ones(16), x, rest);
    RunConcat(Ones(16), y, rest);
    NotInjective(Run(r, rest), Run(s, rest));
    if Run(r, rest) == Run(s, rest) {
      RunInjective(r, s, rest);
      WindowDetermined(Ones(16), x, y);
    }
  }

  lemma NotInjective(a: Reg, b: Reg)
    ensures Not(a) == Not(b) ==> a == b
  {
    assert Not(Not(a)) == a && Not(Not(b)) == b;
  }

  lemma HeaderWalks(f: seq<nat>)
    requires |f| >= 3 && f[0] == ADDRESS && f[1] == CONTROL
    ensures |FrameBits(f)| >= 24 && FrameBits(f)[1..17] != FrameBits([ADDRESS, CONTROL])
  {
    hide FrameBits, OctetBits;
    FrameBitAt(f, 1, 2);
    FrameBitAt(f, 1, 1);
    FrameBitAt([ADDRESS, CONTROL], 1, 1);
    Halves(0xC8, NIBBLE_C, NIBBLE_8);
    assert FrameBits(f)[1..17][9] == FrameBits(f)[10];
  }

  /** A buffer handed on as another frame than `f`. */
  ghost predicate Misread(f: seq<nat>, frame: seq<nat>, n: nat)
    requires 1 <= n < |frame|
  {
    var r := Repair(frame, n);
    r.len != 0 && r.frame[..r.len] != f
  }

  /** A burst on a frame with the forced header that the three readings refuse and the first
      walk accepts. */
  lemma WalkExposes(f: seq<nat>, x: nat) returns (g: seq<nat>)
    requires |f| >= 5 && Octets(f) && Good(f, |f|) && f[0] == ADDRESS && f[1] == CONTROL
    ensures |g| == |f| && Octets(g) && OneBurst(f, g) && Misread(f, g + [x], |f|)
    ensures g == Replaced(f, Closing(FrameBits(f)[1..8 * |f| - 23])) || g == Replaced(f, ForcedClosing(f))
  {
    hide FrameBits, Replaced, Walked, Closing, Good, OneBurst, Octets, Attempt, ForcedClosing, Repair;
    var n := |f|;
    var w := Closing(FrameBits(f)[1..8 * n - 23]);
    ClosingsDiffer(f);
    ReplacedBits(f, w);
    ReplacedBits(f, ForcedClosing(f));
    if Replaced(f, w) == f {
      ReplacedSame(f, w);
      w := ForcedClosing(f);
      if Replaced(f, w) == f {
        ReplacedSame(f, w);
      }
    }
    WalkAccepts(f, x);
    ForcedWalkAccepts(f, x);
    g := Replaced(f, w);
    ReplacedIsBurst(f, w);
    HeaderUnchanged(f, w);
    HeaderRefuses(f, g, x);
    RepairWalksOnce(g + [x], n);
  }

  /** The one good frame of four octets with the forced header. */
  lemma FourOctets(f: seq<nat>)
    requires |f| == 4 && Octets(f) && Good(f, 4) && f[0] == ADDRESS && f[1] == CONTROL
    ensures f == [0xFF, 0xC8, 0xB9, 0x4B]
  {
    hide OctetBits, FrameBits, Run, Fcs16;
    DigestFFC8();
    assert f[..4] == [0xFF, 0xC8] + [f[2], f[3]];
    GoodExactlyWhenClosed([0xFF, 0xC8], f[2], f[3]);
    OctetOf(f[2], 0xB9);
    OctetOf(f[3], 0x4B);
  }

  /** It arrives as FF 80 7F CB, and the first walk reads FF 00 FF. */
  lemma FourExposed(f: seq<nat>, x: nat)
    requires f == [0xFF, 0xC8, 0xB9, 0x4B]
    ensures var g := Replaced(f, Closing(FrameBits(f)[1..9]));
            |g| == 4 && Octets(g) && OneBurst(f, g) && Misread(f, g + [x], 4)
  {
    hide FrameBits, Replaced, Walked, Closing, Good, OneBurst, Octets, Attempt, Repair;
    var w := Closing(FrameBits(f)[1..9]);
    var g := Replaced(f, w);
    ReplacedBits(f, w);
    ReplacedIsBurst(f, w);
    WalkAccepts(f, x);
    FourRefused(f, g, x);
    RepairWalksOnce(g + [x], 4);
  }

  lemma FourRefused(f: seq<nat>, g: seq<nat>, x: nat)
    requires f == [0xFF, 0xC8, 0xB9, 0x4B] && g == Replaced(f, Closing(FrameBits(f)[1..9])) && |g| == 4
    requires Octets(g) && OneBurst(f, g)
    ensures !Attempt(g + [x], 4).0
  {
    hide FrameBits, Replaced, Closing, Good, OneBurst, Attempt;
    FourIsGood(f);
    FourBit(f);
    assert (g + [x])[..4] == g;
    HeaderProtects(f, g + [x], 4);
    FourThird(f, g, x);
  }

  lemma FourIsGood(f: seq<nat>)
    requires f == [0xFF, 0xC8, 0xB9, 0x4B]
    ensures Good(f, 4)
  {
    hide OctetBits, FrameBits, Run, Fcs16;
    DigestFFC8();
    assert f[..4] == [0xFF, 0xC8] + [0xB9, 0x4B];
    GoodExactlyWhenClosed([0xFF, 0xC8], 0xB9, 0x4B);
  }

  /** The burst changes the first bit of the third octet. */
  lemma FourBit(f: seq<nat>)
    requires f == [0xFF, 0xC8, 0xB9, 0x4B]
    ensures var g := Replaced(f, Closing(FrameBits(f)[1..9])); |g| == 4 && g[2] != f[2]
  {
    hide FrameBits, OctetBits, Run, Replaced, Spliced;
    var b, w := FrameBits(f), Closing(FrameBits(f)[1..9]);
    var g := Replaced(f, w);
    ReplacedBits(f, w);
    FourFirstNine(f);
    BehindFF();
    assert w == Not(FF00);
    DigestFFC8();
    FrameBitAt(f, 2, 0);
    FrameBitAt(g, 2, 0);
    SpliceAt(b, w, 9);
    assert FrameBits(g)[16] == FrameBits(g)[9..25][7] == w[7];
  }

  lemma FourFirstNine(f: seq<nat>)
    requires f == [0xFF, 0xC8, 0xB9, 0x4B]
    ensures FrameBits(f)[1..9] == NIBBLE_F + NIBBLE_F
  {
    hide FrameBits, OctetBits;
    Halves(0xFF, NIBBLE_F, NIBBLE_F);
    Halves(0xC8, NIBBLE_C, NIBBLE_8);
    var b := FrameBits(f);
    forall j | 1 <= j < 9
      ensures b[j]
    {
      if j < 8 {
        FrameBitAt(f, 0, j);
      } else {
        FrameBitAt(f, 1, 0);
      }
    }
  }

  lemma FourThird(f: seq<nat>, g: seq<nat>, x: nat)
    requires |f| == |g| == 4 && g[2] != f[2]
    ensures Attempt(g + [x], 4).1[..4] != f
  {
    hide Good;
    assert Attempt(g + [x], 4).1[2] == g[2];
  }

  /** No good frame of four octets or more is safe: some burst of at most sixteen bits makes
      the receiver hand on another frame, whatever is behind it in the buffer. */
  lemma NoFrameIsSafe(f: seq<nat>, x: nat) returns (g: seq<nat>)
    requires |f| >= 4 && Octets(f) && Good(f, |f|)
    ensures |g| == |f| && Octets(g) && OneBurst(f, g) && Misread(f, g + [x], |f|)
  {
    hide Good, OneBurst, Octets, Disguised, Replaced, Closing, Misread, Attempt;
    if !(f[0] == ADDRESS && f[1] == CONTROL) {
      g := Disguised(f);
      HeaderExposes(f);
      AcceptedIsMisread(f, g, x);
    } else if |f| >= 5 {
      g := WalkExposes(f, x);
    } else {
      FourOctets(f);
      FourExposed(f, x);
      g := Replaced(f, Closing(FrameBits(f)[1..9]));
    }
  }

  /** Accepted as another frame at once. */
  lemma AcceptedIsMisread(f: seq<nat>, g: seq<nat>, x: nat)
    requires |f| == |g| >= 4 && Attempt(g, |f|).0 && Attempt(g, |f|).1 != f
    ensures Misread(f, g + [x], |f|)
  {
    hide Good;
    var n, buffer := |f|, g + [x];
    assert buffer[..n] == g && buffer[0 := ADDRESS][..n] == g[0 := ADDRESS];
    assert buffer[0 := ADDRESS][1 := CONTROL][..n] == g[0 := ADDRESS][1 := CONTROL];
    GoodPrefix(buffer, n);
    GoodPrefix(g, n);
    GoodPrefix(buffer[0 := ADDRESS], n);
    GoodPrefix(g[0 := ADDRESS], n);
    GoodPrefix(buffer[0 := ADDRESS][1 := CONTROL], n);
    GoodPrefix(g[0 := ADDRESS][1 := CONTROL], n);
    assert Attempt(buffer, n).0 && Attempt(buffer, n).1[..n] == Attempt(g, n).1;
  }

  // -------------------------------------------------------------------------- examples

  /** FF C0 38 43 is good; with its last two octets hit by one burst it is handed on as
      FF C8 B9 4B, a frame that was never sent. */
  lemma MisrepairedFrame()
    ensures Good([0xFF, 0xC0, 0x38, 0x43], 4)
    ensures OneBurst([0xFF, 0xC0, 0x38, 0x43], [0xFF, 0xC0, 0xB9, 0x4B])
    ensures Attempt([0xFF, 0xC0, 0xB9, 0x4B], 4) == (true, [0xFF, 0xC8, 0xB9, 0x4B])
  {
    hide OctetBits, FrameBits, Run, Fcs16, OneBurst;
    DigestFFC0();
    DigestFFC8();
    var sent, got, forced := [0xFF, 0xC0, 0x38, 0x43], [0xFF, 0xC0, 0xB9, 0x4B], [0xFF, 0xC8, 0xB9, 0x4B];
    GoodExactlyWhenClosed([0xFF, 0xC0], 0x38, 0x43);
    GoodExactlyWhenClosed([0xFF, 0xC0], 0xB9, 0x4B);
    GoodExactlyWhenClosed([0xFF, 0xC8], 0xB9, 0x4B);
    assert sent[..4] == [0xFF, 0xC0] + [0x38, 0x43];
    assert got[..4] == [0xFF, 0xC0] + [0xB9, 0x4B];
    assert forced[..4] == [0xFF, 0xC8] + [0xB9, 0x4B];
    assert Not(C7BC)[0] != Not(X46B4)[0];
    assert got[0 := ADDRESS] == got && got[1 := CONTROL] == forced;
    assert sent == [0xFF, 0xC0] + [0x38, 0x43] && got == [0xFF, 0xC0] + [0xB9, 0x4B];
    BurstInPlace([0xFF, 0xC0], [0x38, 0x43], [0xB9, 0x4B], []);
    assert sent + [] == sent && got + [] == got;
  }

  lemma BurstInPlace(head: seq<nat>, two: seq<nat>, other: seq<nat>, rest: seq<nat>)
    requires |head| == |two| == |other| == 2
    ensures OneBurst(head + two + rest, head + other + rest)
  {
    hide FrameBits, Run;
    FrameParts(head, two, rest);
    FrameParts(head, other, rest);
    BurstInside(FrameBits(head), FrameBits(two), FrameBits(other), FrameBits(rest));
    assert AgreeBeyond(FrameBits(head + two + rest), FrameBits(head + other + rest), 16, 16);
  }

  /** FF C8 01 73 DC is good and carries the forced header; hit by one burst it arrives as
      FF C8 31 5B 5C, is refused as it is, and after one walk is handed on as FF 90 62 B6. */
  lemma MisreadFrame(x: nat)
    ensures var f, g := [0xFF, 0xC8, 0x01, 0x73, 0xDC], [0xFF, 0xC8, 0x31, 0x5B, 0x5C];
            && Good(f, 5) && OneBurst(f, g) && Misread(f, g + [x], 5)
            && Repair(g + [x], 5).len == 4 && Repair(g + [x], 5).frame[..4] == [0xFF, 0x90, 0x62, 0xB6]
  {
    hide OneBurst, Attempt, Walked, Good, Octets;
    var f, g := [0xFF, 0xC8, 0x01, 0x73, 0xDC], [0xFF, 0xC8, 0x31, 0x5B, 0x5C];
    MisreadSent(f);
    MisreadBurst(f, g);
    HeaderRefuses(f, g, x);
    MisreadWalk(g, x);
    RepairWalksOnce(g + [x], 5);
    RepairOnceIs(g + [x], 5);
  }

  lemma MisreadSent(f: seq<nat>)
    requires f == [0xFF, 0xC8, 0x01, 0x73, 0xDC]
    ensures Good(f, 5) && Octets(f)
  {
    hide OctetBits, FrameBits, Run, Fcs16;
    DigestFFC801();
    assert f[..5] == [0xFF, 0xC8, 0x01] + [0x73, 0xDC];
    GoodExactlyWhenClosed([0xFF, 0xC8, 0x01], 0x73, 0xDC);
  }

  /** The burst is over the ten bits from the third octet's third on and six more. */
  lemma MisreadBurst(f: seq<nat>, g: seq<nat>)
    requires f == [0xFF, 0xC8, 0x01, 0x73, 0xDC] && g == [0xFF, 0xC8, 0x31, 0x5B, 0x5C]
    ensures OneBurst(f, g) && Octets(g)
  {
    hide FrameBits, OctetBits;
    MisreadOctets();
    forall i | 0 <= i < 40 && !(18 <= i < 34)
      ensures FrameBits(f)[i] == FrameBits(g)[i]
    {
      FrameBitAt(f, i / 8, i % 8);
      FrameBitAt(g, i / 8, i % 8);
    }
    assert AgreeBeyond(FrameBits(f), FrameBits(g), 18, 16);
  }

  /** Where the octets of the two frames agree. */
  lemma MisreadOctets()
    ensures forall j | 0 <= j < 2 :: OctetBits(0x01)[j] == OctetBits(0x31)[j]
    ensures forall j | 2 <= j < 8 :: OctetBits(0xDC)[j] == OctetBits(0x5C)[j]
  {
    hide OctetBits;
    Halves(0x01, NIBBLE_0, NIBBLE_1);
    Halves(0x31, NIBBLE_3, NIBBLE_1);
    Halves(0xDC, NIBBLE_D, NIBBLE_C);
    Halves(0x5C, NIBBLE_5, NIBBLE_C);
  }

  /** The first walk of what arrived. */
  lemma MisreadWalk(g: seq<nat>, x: nat)
    requires g == [0xFF, 0xC8, 0x31, 0x5B, 0x5C]
    ensures Walked(g + [x], 5, 1)[..4] == [0xFF, 0x90, 0x62, 0xB6]
    ensures Attempt(Walked(g + [x], 5, 1), 4) == (true, Walked(g + [x], 5, 1))
  {
    var frame := g + [x];
    assert Walked(frame, 5, 0) == frame && Walked(frame, 5, 1) == Shifted(frame, 5);
    var w := Shifted(frame, 5);
    hide Walked, Shifted;
    ShiftedFour(frame, w);
    NinetyGood(w);
  }

  lemma ShiftedFour(frame: seq<nat>, w: seq<nat>)
    requires |frame| == 6 && frame[..5] == [0xFF, 0xC8, 0x31, 0x5B, 0x5C] && w == Shifted(frame, 5)
    ensures w[..4] == [0xFF, 0x90, 0x62, 0xB6]
  {
    hide Shifted, ShiftedOctet;
    ShiftedAt(frame, 5, 0);
    ShiftedAt(frame, 5, 1);
    ShiftedAt(frame, 5, 2);
    ShiftedAt(frame, 5, 3);
    assert frame[0] == 0xFF && frame[1] == 0xC8 && frame[2] == 0x31 && frame[3] == 0x5B && frame[4] == 0x5C;
    ShiftedHeader();
    ShiftedTail();
  }

  lemma ShiftedAt(frame: seq<nat>, len: nat, k: nat)
    requires k < len < |frame|
    ensures Shifted(frame, len)[k] == ShiftedOctet(frame[k], frame[k + 1])
  {
    hide ShiftedOctet;
  }

  lemma ShiftedHeader()
    ensures ShiftedOctet(0xFF, 0xC8) == 0xFF && ShiftedOctet(0xC8, 0x31) == 0x90
  {
    hide ShiftedOctet, OctetBits;
    Halves(0xFF, NIBBLE_F, NIBBLE_F);
    Halves(0xC8, NIBBLE_C, NIBBLE_8);
    Halves(0x31, NIBBLE_3, NIBBLE_1);
    Shift(0xFF, 0xC8, NIBBLE_F + NIBBLE_F, 0xFF);
    Shift(0xC8, 0x31, NIBBLE_9 + NIBBLE_0, 0x90);
  }

  lemma ShiftedTail()
    ensures ShiftedOctet(0x31, 0x5B) == 0x62 && ShiftedOctet(0x5B, 0x5C) == 0xB6
  {
    hide ShiftedOctet, OctetBits;
    Halves(0x31, NIBBLE_3, NIBBLE_1);
    Halves(0x5B, NIBBLE_5, NIBBLE_B);
    Halves(0x5C, NIBBLE_5, NIBBLE_C);
    Shift(0x31, 0x5B, NIBBLE_6 + NIBBLE_2, 0x62);
    Shift(0x5B, 0x5C, NIBBLE_B + NIBBLE_6, 0xB6);
  }

  lemma Shift(here: nat, next: nat, b: Bits, w: nat)
    requires |b| == 8 && b == OctetBits(here)[1..] + [OctetBits(next)[0]]
    requires w == 128 * Digit(b[0]) + 64 * Digit(b[1]) + 32 * Digit(b[2]) + 16 * Digit(b[3])
                  + 8 * Digit(b[4]) + 4 * Digit(b[5]) + 2 * Digit(b[6]) + Digit(b[7])
    ensures ShiftedOctet(here, next) == w
  {
    hide Value, OctetBits, Digit;
    EightBits(b);
  }

  lemma NinetyGood(w: seq<nat>)
    requires |w| == 6 && w[..4] == [0xFF, 0x90, 0x62, 0xB6]
    ensures Attempt(w, 4) == (true, w)
  {
    hide OctetBits, FrameBits, Run, Fcs16;
    DigestFF90();
    GoodExactlyWhenClosed([0xFF, 0x90], 0x62, 0xB6);
    assert w[..4] == [0xFF, 0x90] + [0x62, 0xB6];
  }

  lemma RepairOnceIs(frame: seq<nat>, n: nat)
    requires 2 <= n < |frame| && !Attempt(frame, n).0 && Attempt(Walked(frame, n, 1), n - 1).0
    ensures Repair(frame, n).frame == Attempt(Walked(frame, n, 1), n - 1).1
  {
    hide Attempt, Walked;
  }
}

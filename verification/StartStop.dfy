/** The V.21 start-stop character decoder: hunting for a start bit, sampling at bit
    centres a real number of samples apart, and resynchronising on every character. */
module StartStop {
  import opened Numbers
  import opened Seqs

  /** A received line: mark (true) or space per sample, and whether the tone pair is
      present there; `spb` is the number of samples per bit. */
  datatype Line = Line(bits: seq<bool>, valid: seq<bool>, spb: real)

  /** 2/19 is the smallest `spb` at which an accepted character moves the cursor. */
  ghost predicate WellFormed(l: Line) {
    |l.valid| == |l.bits| && l.spb >= 2.0 / 19.0
  }

  /** The hunt stops eleven bits short of the end. */
  function Limit(l: Line): int {
    |l.bits| - (11.0 * l.spb).Floor
  }

  /** The sample `k` bits after the centre of a start bit that was found at sample `i`. */
  function At(l: Line, i: nat, k: nat): int {
    (i as real + l.spb / 2.0 + k as real * l.spb).Floor
  }

  /** The cursor after a character: half a bit past the stop sample. */
  function Resync(l: Line, i: nat): int {
    At(l, i, 9) + (l.spb / 2.0).Floor
  }

  /** No sample of a character begun inside the limit lies outside the line, so the
      range tests inside the loop never fire; and the cursor strictly advances. */
  lemma SamplesInside(l: Line, i: nat, k: nat)
    requires WellFormed(l) && i < Limit(l) && k <= 9
    ensures 0 <= At(l, i, k) < |l.bits| && i < |l.bits|
    ensures i < Resync(l, i)
  {
    hide *;
    SampleInside(l, i, k);
    CursorAdvances(l, i);
  }

  lemma SampleInside(l: Line, i: nat, k: nat)
    requires WellFormed(l) && i < Limit(l) && k <= 9
    ensures 0 <= At(l, i, k) < |l.bits| && i < |l.bits|
  {
    var s, f := l.spb, (11.0 * l.spb).Floor;
    assert i + f <= |l.bits| - 1;
    assert i as real + f as real <= |l.bits| as real - 1.0;
    assert s >= 0.0;
    hide Limit, WellFormed;
    var ks := Scale(s, k);
    FloorIs(11.0 * s);
    assert f as real > 11.0 * s - 1.0;
    RealMargins(i as real, s, f as real, |l.bits| as real, ks);
    FloorBetween(i as real + s / 2.0 + ks, |l.bits|);
  }

  lemma CursorAdvances(l: Line, i: nat)
    requires WellFormed(l)
    ensures i < Resync(l, i)
  {
    FloorIs(i as real + l.spb / 2.0 + 9.0 * l.spb);
    FloorIs(l.spb / 2.0);
  }

  lemma FloorIs(x: real)
    ensures x - 1.0 < x.Floor as real <= x
  {
  }

  lemma RealMargins(i: real, s: real, f: real, n: real, ks: real)
    requires i >= 0.0 && s >= 0.0 && f > 11.0 * s - 1.0 && i + f <= n - 1.0 && 0.0 <= ks <= 9.0 * s
    ensures 0.0 <= i + s / 2.0 + ks < n && i < n
  {
  }

  lemma FloorBetween(x: real, n: int)
    requires 0.0 <= x < n as real
    ensures 0 <= x.Floor < n
  {
    assert x.Floor as real <= x;
  }

  lemma ProductSign(a: real, b: real)
    requires a >= 0.0 && b >= 0.0
    ensures a * b >= 0.0
  {
  }

  lemma Scale(s: real, k: nat) returns (ks: real)
    requires s >= 0.0 && k <= 9
    ensures ks == k as real * s && 0.0 <= ks <= 9.0 * s
  {
    var r := k as real;
    ks := r * s;
    var rest := (9.0 - r) * s;
    assert r <= 9.0;
    ProductSign(r, s);
    ProductSign(9.0 - r, s);
    assert ks + rest == 9.0 * s;
  }

  // ------------------------------------------------------------------- one character

  function Octet(l: Line, i: nat, k: nat): nat
    requires WellFormed(l) && i < Limit(l) && k <= 8
  {
    if k == 0 then 0
    else
      SamplesInside(l, i, k);
      Octet(l, i, k - 1) + (if l.bits[At(l, i, k)] then Pow2(k - 1) else 0)
  }

  predicate AllValid(l: Line, i: nat, k: nat)
    requires WellFormed(l) && i < Limit(l) && k <= 8
  {
    k == 0 || (SamplesInside(l, i, k); AllValid(l, i, k - 1) && l.valid[At(l, i, k)])
  }

  /** Whether the decoder accepts a character that starts at sample `i`. */
  predicate Accepts(l: Line, i: nat)
    requires WellFormed(l) && i < Limit(l)
  {
    SamplesInside(l, i, 0);
    SamplesInside(l, i, 9);
    !l.bits[i] && l.valid[i] && !l.bits[At(l, i, 0)] && AllValid(l, i, 8) && l.bits[At(l, i, 9)]
  }

  /** Everything emitted from cursor `i` on: where each character was found, and it. */
  function Decoded(l: Line, i: nat): seq<(nat, nat)>
    requires WellFormed(l)
    decreases |l.bits| - i
  {
    if i >= Limit(l) then []
    else
      SamplesInside(l, i, 9);
      if Accepts(l, i) then [(i, Octet(l, i, 8))] + Decoded(l, Resync(l, i))
      else Decoded(l, i + 1)
  }

  /** The decoder's loop. */
  method Decode(l: Line) returns (out: seq<(nat, nat)>)
    requires WellFormed(l)
    ensures out == Decoded(l, l.spb.Floor) && Reads(l, l.spb.Floor, out)
  {
    hide Decoded, Reads, Framed, Octet, AllValid, At, Resync, Accepts;
    out := [];
    var i: nat := l.spb.Floor;
    var n := |l.bits|;
    var limit := n - (11.0 * l.spb).Floor;
    assert limit == Limit(l);
    hide Limit, WellFormed;
    while i < limit
      invariant Decoded(l, l.spb.Floor) == out + Decoded(l, i)
      decreases n - i
    {
      SamplesInside(l, i, 9);
      DecodedStep(l, i);
      ResyncIs(l, i);
      if l.bits[i] || !l.valid[i] {
        NoStart(l, i);
        i := i + 1;
        continue;
      }
      var val, ok := ReadCharacter(l, i);
      if !ok {
        i := i + 1;
        continue;
      }
      Associate(out, [(i, val)], Decoded(l, Resync(l, i)));
      out := out + [(i, val)];
      i := At(l, i, 9) + (l.spb / 2.0).Floor;
    }
    DecodedEnd(l, i);
    assert out + [] == out;
    ReadsExactly(l, l.spb.Floor, out);
  }

  /** The samples of one character: start, data and stop. */
  method ReadCharacter(l: Line, i: nat) returns (val: nat, ok: bool)
    requires WellFormed(l) && i < Limit(l) && i < |l.bits| && !l.bits[i] && l.valid[i]
    ensures ok == Accepts(l, i) && (ok ==> val == Octet(l, i, 8))
    ensures if ok then Framed(l, i, val) else forall v: nat :: !Framed(l, i, v)
  {
    hide Octet, AllValid, At, Limit, WellFormed, Framed;
    FramedExactly(l, i);
    SamplesInside(l, i, 0);
    SamplesInside(l, i, 9);
    if l.bits[At(l, i, 0)] {
      return 0, false;
    }
    val, ok := ReadOctet(l, i);
    var stop := At(l, i, 9);
    if !ok || stop >= |l.bits| || !l.bits[stop] {
      return 0, false;
    }
  }

  lemma NoStart(l: Line, i: nat)
    requires WellFormed(l) && i < Limit(l) && i < |l.bits| && (l.bits[i] || !l.valid[i])
    ensures !Accepts(l, i)
  {
  }

  lemma ResyncIs(l: Line, i: nat)
    ensures Resync(l, i) == At(l, i, 9) + (l.spb / 2.0).Floor
  {
  }

  lemma DecodedStep(l: Line, i: nat)
    requires WellFormed(l) && i < Limit(l)
    ensures i < Resync(l, i)
    ensures Decoded(l, i)
         == if Accepts(l, i) then [(i, Octet(l, i, 8))] + Decoded(l, Resync(l, i)) else Decoded(l, i + 1)
  {
    SamplesInside(l, i, 9);
    hide Accepts, Octet, Resync;
  }

  lemma DecodedEnd(l: Line, i: nat)
    requires WellFormed(l) && i >= Limit(l)
    ensures Decoded(l, i) == []
  {
  }

  /** The eight data samples, least significant bit first; stops at an invalid one. */
  method ReadOctet(l: Line, i: nat) returns (val: nat, ok: bool)
    requires WellFormed(l) && i < Limit(l)
    ensures ok == AllValid(l, i, 8)
    ensures ok ==> val == Octet(l, i, 8)
  {
    val, ok := 0, true;
    var place, k := 1, 0;
    while k < 8
      invariant 0 <= k <= 8 && place == Pow2(k)
      invariant AllValid(l, i, k) && val == Octet(l, i, k)
    {
      SamplesInside(l, i, k + 1);
      var p := At(l, i, k + 1);
      if p >= |l.bits| || !l.valid[p] {
        NotAllValid(l, i, k + 1, 8);
        return val, false;
      }
      if l.bits[p] {
        val := val + place;
      }
      place := 2 * place;
      k := k + 1;
    }
  }

  lemma {:induction false} NotAllValid(l: Line, i: nat, k: nat, n: nat)
    requires WellFormed(l) && i < Limit(l) && k <= n <= 8 && !AllValid(l, i, k)
    ensures !AllValid(l, i, n)
    decreases n
  {
    if k < n {
      NotAllValid(l, i, k, n - 1);
    }
  }

  // ------------------------------------------------------------- what a sender sends

  /** One character on the line: when its start bit begins, and its octet. */
  datatype Char = Char(edge: real, octet: nat)

  /** Bit `k` of a character: start (space), eight data bits, stop (mark). */
  predicate BitSent(octet: nat, k: nat) {
    if k == 0 then false else if k <= 8 then octet / Pow2(k - 1) % 2 == 1 else true
  }

  /** Sample `p` falls in bit `k` of a character whose bits last `period` samples. */
  ghost predicate During(c: Char, period: real, k: nat, p: int) {
    c.edge + k as real * period <= p as real < c.edge + (k + 1) as real * period
  }

  /** Sample `p` is before the `j`-th character and after the one before it. */
  ghost predicate Between(chars: seq<Char>, period: real, j: nat, p: int)
    requires j <= |chars|
  {
    && (j > 0 ==> chars[j - 1].edge + 9.0 * period <= p as real)
    && (j < |chars| ==> p as real < chars[j].edge)
  }

  /** The line carries these characters, idle at mark between them, each starting no
      sooner than ten bits after the one before. */
  ghost predicate Sends(l: Line, chars: seq<Char>, period: real) {
    && |l.valid| == |l.bits|
    && (forall p | 0 <= p < |l.bits| :: l.valid[p])
    && (forall j | 0 <= j < |chars| :: chars[j].octet < 256 && chars[j].edge > l.spb - 1.0)
    && (forall j | 0 < j < |chars| :: chars[j].edge >= chars[j - 1].edge + 10.0 * period)
    && (forall j, k: nat, p | 0 <= j < |chars| && k <= 9 && 0 <= p < |l.bits| && During(chars[j], period, k, p) ::
          l.bits[p] == BitSent(chars[j].octet, k))
    && (forall j, p | 0 <= j <= |chars| && 0 <= p < |l.bits| && Between(chars, period, j, p) :: l.bits[p])
  }

  /** A character found `off` samples after its start edge has each of its samples in its
      own bit: the first and the stop one do, and so do those between them. */
  ghost predicate Tracks(spb: real, period: real, off: real) {
    && 0.0 <= off && 1.0 <= spb / 2.0 + off < period
    && 9.0 * (period - spb) <= spb / 2.0 + off - 1.0
    && spb / 2.0 + off < period + 9.0 * (period - spb)
  }

  /** The sender may be slower than the receiver by a margin that leaves the stop sample
      inside the stop bit; at equal speed this is two samples per bit or more. */
  ghost predicate Tolerable(spb: real, period: real) {
    spb <= period && 18.0 * (period - spb) <= spb - 2.0
  }

  lemma TolerableTracks(spb: real, period: real, off: real)
    requires Tolerable(spb, period) && 0.0 <= off < 1.0
    ensures Tracks(spb, period, off)
  {
  }

  function Ceil(x: real): int {
    -((-x).Floor)
  }

  // -------------------------------------------------------------------- the round trip

  lemma Distribute(a: real, x: real, y: real)
    ensures a * (x + y) == a * x + a * y
    ensures (x + y) * a == x * a + y * a
  {
  }

  lemma Negate(a: real, x: real)
    ensures a * -x == -(a * x)
  {
  }

  lemma OneMoreTime(k: nat, x: real)
    ensures (k + 1) as real * x == k as real * x + x
  {
    assert (k + 1) as real == k as real + 1.0;
  }

  /** A part of nine times `d`, whichever its sign. */
  ghost predicate OfNine(kd: real, d: real) {
    0.0 <= kd <= 9.0 * d || 9.0 * d <= kd <= 0.0
  }

  lemma PartOfNine(k: nat, d: real)
    requires k <= 9
    ensures OfNine(k as real * d, d)
  {
    if d >= 0.0 {
      var kd := Scale(d, k);
    } else {
      var kd := Scale(-d, k);
      Negate(k as real, d);
    }
  }

  /** Found where it can be tracked, a character is sampled once in each of its ten bits. */
  lemma SampleFallsInBit(l: Line, c: Char, period: real, i: nat, k: nat)
    requires Tracks(l.spb, period, i as real - c.edge) && k <= 9
    ensures During(c, period, k, At(l, i, k))
  {
    hide Tracks, OfNine;
    var s, d := l.spb, period - l.spb;
    PartOfNine(k, d);
    Distribute(k as real, d, s);
    OneMoreTime(k, period);
    var ks, kd := k as real * s, k as real * d;
    assert d + s == period;
    var x := i as real + s / 2.0 + ks;
    InsideBit(c.edge, i as real, s, d, ks, kd, x);
    assert At(l, i, k) == x.Floor;
    FloorInside(x, c.edge + (kd + ks), c.edge + (kd + ks + period));
  }

  lemma InsideBit(edge: real, i: real, s: real, d: real, ks: real, kd: real, x: real)
    requires Tracks(s, s + d, i - edge) && OfNine(kd, d)
    requires x == i + s / 2.0 + ks
    ensures edge + (kd + ks) <= x - 1.0 && x < edge + (kd + ks + (s + d))
  {
  }

  lemma FloorInside(x: real, lo: real, hi: real)
    requires lo <= x - 1.0 && x < hi
    ensures lo <= x.Floor as real < hi
  {
    assert x - 1.0 < x.Floor as real <= x;
  }

  lemma {:induction false} OctetBelow(octet: nat, l: Line, i: nat, k: nat)
    requires WellFormed(l) && i < Limit(l) && k <= 8
    requires forall m | 1 <= m <= k :: 0 <= At(l, i, m) < |l.bits| && l.bits[At(l, i, m)] == BitSent(octet, m)
    ensures Octet(l, i, k) == octet % Pow2(k)
    decreases k
  {
    if k != 0 {
      OctetBelow(octet, l, i, k - 1);
      LowBits(octet, k - 1);
    }
  }

  /** Halving `k` times. */
  lemma {:induction false} LowBits(w: nat, k: nat)
    ensures w % Pow2(k + 1) == w % Pow2(k) + (if w / Pow2(k) % 2 == 1 then Pow2(k) else 0)
  {
    var p, q := Pow2(k), w / Pow2(k);
    Euclid(w, p);
    var h := q / 2;
    assert q == 2 * h + q % 2;
    DoubleTimes(p, h, q % 2);
    DivUnique(w, 2 * p, h, w % p + p * (q % 2));
  }

  lemma DoubleTimes(p: nat, h: nat, b: nat)
    ensures p * (2 * h + b) == 2 * p * h + p * b
    ensures b == 0 ==> p * b == 0
    ensures b == 1 ==> p * b == p
  {
  }

  /** The first sample at or after a start edge. */
  lemma CeilIs(x: real)
    ensures x <= Ceil(x) as real < x + 1.0
  {
  }

  /** A character found where it can be tracked is accepted, read as its octet, and the
      cursor is left past its stop edge, at most ten of the receiver's bits further on. */
  lemma CharacterReads(l: Line, chars: seq<Char>, period: real, j: nat, i: nat)
    requires WellFormed(l) && Sends(l, chars, period) && j < |chars|
    requires Tracks(l.spb, period, i as real - chars[j].edge) && i < Limit(l)
    ensures Accepts(l, i) && Octet(l, i, 8) == chars[j].octet
    ensures chars[j].edge + 9.0 * period <= Resync(l, i) as real <= i as real + 10.0 * l.spb
  {
    var c := chars[j];
    SentOctet(l, chars, period, j);
    BitEnds(c.octet);
    FirstSample(l, chars, period, j, i);
    hide Sends, During, At, Octet, AllValid, Resync, BitSent, Tracks, Pow2;
    forall k: nat | k <= 9
      ensures 0 <= At(l, i, k) < |l.bits| && l.bits[At(l, i, k)] == BitSent(c.octet, k)
    {
      SampledBit(l, chars, period, j, i, k);
    }
    OctetBelow(c.octet, l, i, 8);
    Pow2Values();
    SmallMod(c.octet, 256);
    AllAreValid(l, i, 8);
    SampledBit(l, chars, period, j, i, 9);
    ResyncBounds(l, c, period, i);
  }

  lemma SentOctet(l: Line, chars: seq<Char>, period: real, j: nat)
    requires Sends(l, chars, period) && j < |chars|
    ensures chars[j].octet < 256 && forall p | 0 <= p < |l.bits| :: l.valid[p]
  {
  }

  lemma BitEnds(octet: nat)
    ensures !BitSent(octet, 0) && BitSent(octet, 9)
  {
  }

  /** The sample that finds a character is in its start bit. */
  lemma FirstSample(l: Line, chars: seq<Char>, period: real, j: nat, i: nat)
    requires WellFormed(l) && Sends(l, chars, period) && j < |chars|
    requires Tracks(l.spb, period, i as real - chars[j].edge) && i < Limit(l)
    ensures i < |l.bits| && !l.bits[i]
  {
    SamplesInside(l, i, 0);
    assert During(chars[j], period, 0, i);
  }

  /** Each sample shows the bit it falls in. */
  lemma SampledBit(l: Line, chars: seq<Char>, period: real, j: nat, i: nat, k: nat)
    requires WellFormed(l) && Sends(l, chars, period) && j < |chars| && k <= 9
    requires Tracks(l.spb, period, i as real - chars[j].edge) && i < Limit(l)
    ensures 0 <= At(l, i, k) < |l.bits| && l.bits[At(l, i, k)] == BitSent(chars[j].octet, k)
    ensures During(chars[j], period, k, At(l, i, k))
  {
    SamplesInside(l, i, k);
    SampleFallsInBit(l, chars[j], period, i, k);
    hide At, During, BitSent, Between, Tracks;
  }

  lemma ResyncBounds(l: Line, c: Char, period: real, i: nat)
    requires During(c, period, 9, At(l, i, 9)) && l.spb >= 0.0
    ensures c.edge + 9.0 * period <= Resync(l, i) as real <= i as real + 10.0 * l.spb
  {
    var x := i as real + l.spb / 2.0 + 9.0 * l.spb;
    assert At(l, i, 9) as real <= x;
  }

  lemma {:induction false} AllAreValid(l: Line, i: nat, k: nat)
    requires WellFormed(l) && i < Limit(l) && k <= 8 && forall p | 0 <= p < |l.bits| :: l.valid[p]
    ensures AllValid(l, i, k)
    decreases k
  {
    if k != 0 {
      AllAreValid(l, i, k - 1);
      SamplesInside(l, i, k);
    }
  }

  /** Hunting through mark reaches the first sample of the next character. */
  lemma {:induction false} HuntFinds(l: Line, chars: seq<Char>, period: real, j: nat, i: nat)
    requires WellFormed(l) && Sends(l, chars, period) && j <= |chars|
    requires j > 0 ==> chars[j - 1].edge + 9.0 * period <= i as real
    requires j < |chars| ==> i <= Ceil(chars[j].edge)
    ensures Decoded(l, i) == if j == |chars| then [] else Decoded(l, Ceil(chars[j].edge))
    decreases |l.bits| - i
  {
    hide At, Octet, AllValid;
    if i < Limit(l) && (j == |chars| || i < Ceil(chars[j].edge)) {
      SamplesInside(l, i, 0);
      if j < |chars| {
        CeilIs(chars[j].edge);
      }
      assert Between(chars, period, j, i);
      HuntFinds(l, chars, period, j, i + 1);
    }
  }

  /** The characters that begin inside the limit, found exactly at their first sample. */
  function Expected(l: Line, chars: seq<Char>): seq<(nat, nat)>
    requires forall j | 0 <= j < |chars| :: chars[j].edge > -1.0
  {
    if chars == [] || Ceil(chars[0].edge) >= Limit(l) then []
    else [(Ceil(chars[0].edge), chars[0].octet)] + Expected(l, chars[1..])
  }

  /** No drift: from any cursor between characters, however many follow, each is read
      as it was sent and located to within one sample of its own start edge. */
  lemma {:induction false} NoDrift(l: Line, chars: seq<Char>, period: real, j: nat, i: nat)
    requires WellFormed(l) && Sends(l, chars, period) && Tolerable(l.spb, period) && j <= |chars|
    requires j > 0 ==> chars[j - 1].edge + 9.0 * period <= i as real
    requires j < |chars| ==> i <= Ceil(chars[j].edge)
    ensures Decoded(l, i) == Expected(l, chars[j..])
    decreases |chars| - j
  {
    EdgesAhead(l, chars, period);
    hide *;
    HuntFinds(l, chars, period, j, i);
    ExpectedFrom(l, chars, j);
    if j < |chars| {
      var e := Ceil(chars[j].edge);
      if e < Limit(l) {
        var next := OneRead(l, chars, period, j, e);
        NoDrift(l, chars, period, j + 1, next);
      } else {
        DecodedEnd(l, e);
      }
    }
  }

  lemma EdgesAhead(l: Line, chars: seq<Char>, period: real)
    requires WellFormed(l) && Sends(l, chars, period)
    ensures forall m | 0 <= m < |chars| :: chars[m].edge > -1.0 && Ceil(chars[m].edge) >= 0
  {
    forall m | 0 <= m < |chars|
      ensures chars[m].edge > -1.0 && Ceil(chars[m].edge) >= 0
    {
      CeilIs(chars[m].edge);
    }
  }

  lemma ExpectedFrom(l: Line, chars: seq<Char>, j: nat)
    requires j <= |chars| && forall m | 0 <= m < |chars| :: chars[m].edge > -1.0
    ensures j == |chars| || Ceil(chars[j].edge) >= Limit(l) ==> Expected(l, chars[j..]) == []
    ensures j < |chars| && Ceil(chars[j].edge) < Limit(l) ==>
              Expected(l, chars[j..]) == [(Ceil(chars[j].edge), chars[j].octet)] + Expected(l, chars[j + 1..])
  {
    if j < |chars| {
      assert chars[j..][0] == chars[j] && chars[j..][1..] == chars[j + 1..];
    }
  }

  /** One character of a slower sender: read, and the cursor left before the next edge. */
  lemma OneRead(l: Line, chars: seq<Char>, period: real, j: nat, e: nat) returns (next: nat)
    requires WellFormed(l) && Sends(l, chars, period) && Tolerable(l.spb, period) && j < |chars|
    requires e == Ceil(chars[j].edge) && e < Limit(l)
    ensures Decoded(l, e) == [(e, chars[j].octet)] + Decoded(l, next)
    ensures chars[j].edge + 9.0 * period <= next as real
    ensures j + 1 < |chars| ==> next <= Ceil(chars[j + 1].edge)
  {
    hide Sends, Tolerable, Decoded, Accepts, Octet, Resync, Tracks, Limit, WellFormed;
    CeilIs(chars[j].edge);
    TolerableTracks(l.spb, period, e as real - chars[j].edge);
    CharacterReads(l, chars, period, j, e);
    DecodedStep(l, e);
    next := Resync(l, e);
    if j + 1 < |chars| {
      CeilIs(chars[j + 1].edge);
      NextEdge(l, chars, period, j);
    }
  }

  lemma NextEdge(l: Line, chars: seq<Char>, period: real, j: nat)
    requires Sends(l, chars, period) && Tolerable(l.spb, period) && j + 1 < |chars|
    ensures chars[j + 1].edge >= chars[j].edge + 10.0 * l.spb
  {
  }

  /** A whole transmission decodes to its octets, in order. */
  lemma TransmissionDecodes(l: Line, chars: seq<Char>, period: real)
    requires WellFormed(l) && Sends(l, chars, period) && Tolerable(l.spb, period)
    requires forall j | 0 <= j < |chars| :: Ceil(chars[j].edge) < Limit(l)
    ensures |Decoded(l, l.spb.Floor)| == |chars|
    ensures forall j | 0 <= j < |chars| :: Decoded(l, l.spb.Floor)[j] == (Ceil(chars[j].edge), chars[j].octet)
  {
    if chars != [] {
      CeilIs(chars[0].edge);
    }
    NoDrift(l, chars, period, 0, l.spb.Floor);
    assert chars[0..] == chars;
    ExpectedAll(l, chars);
  }

  lemma {:induction false} ExpectedAll(l: Line, chars: seq<Char>)
    requires forall j | 0 <= j < |chars| :: chars[j].edge > -1.0 && Ceil(chars[j].edge) < Limit(l)
    ensures |Expected(l, chars)| == |chars|
    ensures forall j | 0 <= j < |chars| :: Expected(l, chars)[j] == (Ceil(chars[j].edge), chars[j].octet)
  {
    if chars != [] {
      ExpectedAll(l, chars[1..]);
    }
  }

  // ------------------------------------------------------------- soundness, any line

  /** Bit `k` of what was emitted at sample `i` is the sample taken for it. */
  lemma {:induction false} OctetBits(l: Line, i: nat, n: nat, k: nat)
    requires WellFormed(l) && i < Limit(l) && 1 <= k <= n <= 8
    ensures Octet(l, i, n) < Pow2(n) && 0 <= At(l, i, k) < |l.bits|
    ensures Octet(l, i, n) / Pow2(k - 1) % 2 == 1 <==> l.bits[At(l, i, k)]
    decreases n
  {
    hide Octet, At, Pow2, Limit, WellFormed;
    SamplesInside(l, i, k);
    OctetSmall(l, i, n);
    if k == n {
      TopBit(l, i, n);
    } else {
      OctetBits(l, i, n - 1, k);
      LowerBit(l, i, n, k);
    }
  }

  lemma TopBit(l: Line, i: nat, n: nat)
    requires WellFormed(l) && i < Limit(l) && 1 <= n <= 8
    ensures 0 <= At(l, i, n) < |l.bits|
    ensures Octet(l, i, n) / Pow2(n - 1) % 2 == if l.bits[At(l, i, n)] then 1 else 0
  {
    hide Octet, At, Pow2, Limit, WellFormed;
    OctetSmall(l, i, n - 1);
    OctetTop(l, i, n);
    TopDigit(Octet(l, i, n - 1), Pow2(n - 1), Octet(l, i, n));
  }

  lemma LowerBit(l: Line, i: nat, n: nat, k: nat)
    requires WellFormed(l) && i < Limit(l) && 1 <= k < n <= 8
    ensures Octet(l, i, n) / Pow2(k - 1) % 2 == Octet(l, i, n - 1) / Pow2(k - 1) % 2
  {
    hide Octet, At, Pow2, Limit, WellFormed;
    OctetTop(l, i, n);
    UpperIrrelevant(Octet(l, i, n - 1), n - 1, k - 1);
  }

  lemma OctetTop(l: Line, i: nat, n: nat)
    requires WellFormed(l) && i < Limit(l) && 1 <= n <= 8
    ensures 0 <= At(l, i, n) < |l.bits|
    ensures Octet(l, i, n) == Octet(l, i, n - 1) + (if l.bits[At(l, i, n)] then Pow2(n - 1) else 0)
  {
    SamplesInside(l, i, n);
    hide Pow2, At;
  }

  lemma {:induction false} OctetSmall(l: Line, i: nat, n: nat)
    requires WellFormed(l) && i < Limit(l) && n <= 8
    ensures Octet(l, i, n) < Pow2(n)
    decreases n
  {
    if n != 0 {
      OctetSmall(l, i, n - 1);
    }
  }

  lemma TopDigit(low: nat, p: nat, v: nat)
    requires low < p && (v == low || v == low + p)
    ensures v / p % 2 == if v == low then 0 else 1
  {
    if v == low {
      assert v / p == 0;
    } else {
      assert v / p == 1;
    }
  }

  lemma UpperIrrelevant(w: nat, n: nat, k: nat)
    requires k < n
    ensures (w + Pow2(n)) / Pow2(k) % 2 == w / Pow2(k) % 2
  {
    var h := EvenMultiple(k, n);
    AddEven(w, Pow2(k), h, Pow2(n));
  }

  lemma AddEven(w: nat, p: nat, h: nat, x: nat)
    requires p > 0 && x == p * (2 * h)
    ensures (w + x) / p % 2 == w / p % 2
  {
    var q, u := w / p, w % p;
    Euclid(w, p);
    var more := 2 * h + q;
    Distributed(p, 2 * h, q);
    assert w + x == more * p + u;
    DivUnique(w + x, p, more, u);
    EvenMore(q, h);
  }

  lemma EvenMore(q: nat, h: nat)
    ensures (2 * h + q) % 2 == q % 2
  {
  }

  lemma Distributed(p: nat, a: nat, b: nat)
    ensures p * (a + b) == p * a + p * b
  {
  }

  lemma {:induction false} EvenMultiple(k: nat, n: nat) returns (h: nat)
    requires k < n
    ensures Pow2(n) == Pow2(k) * (2 * h)
    decreases n
  {
    if k + 1 == n {
      h := 1;
    } else {
      var g := EvenMultiple(k, n - 1);
      h := 2 * g;
      DoubleTimes(Pow2(k), g, 0);
    }
  }

  /** Every emitted character was confirmed at its start and stop samples and at eight
      valid data samples, and is found past the previous one's stop sample. */
  lemma {:induction false} EmittedIsSampled(l: Line, i: nat, j: nat)
    requires WellFormed(l) && j < |Decoded(l, i)|
    ensures var (at, octet) := Decoded(l, i)[j];
            && i <= at < Limit(l) && Accepts(l, at) && octet == Octet(l, at, 8)
            && (j + 1 < |Decoded(l, i)| ==> Resync(l, at) <= Decoded(l, i)[j + 1].0)
    decreases |l.bits| - i
  {
    hide Decoded, Octet, Accepts, Resync;
    if i >= Limit(l) {
      DecodedEnd(l, i);
      assert false;
    }
    SamplesInside(l, i, 9);
    DecodedStep(l, i);
    if Accepts(l, i) {
      var rest := Decoded(l, Resync(l, i));
      if j > 0 {
        EmittedIsSampled(l, Resync(l, i), j - 1);
      } else if rest != [] {
        EmittedIsSampled(l, Resync(l, i), 0);
      }
    } else {
      EmittedIsSampled(l, i + 1, j);
    }
  }

  // ------------------------------------------------------- what a line says, exactly

  /** Sample `p` is there and shows a mark or a space. */
  ghost predicate Shows(l: Line, p: int, mark: bool) {
    0 <= p < |l.bits| && l.bits[p] == mark
  }

  /** The sample `k` bits past the centre of a start bit found at `p` has the value of bit
      `k` of `v`, least significant first, and carries the tone pair. */
  ghost predicate DataBit(l: Line, p: nat, k: nat, v: nat)
    requires 1 <= k
  {
    var q := (p as real + l.spb / 2.0 + k as real * l.spb).Floor;
    Shows(l, q, v / Pow2(k - 1) % 2 == 1) && q < |l.valid| && l.valid[q]
  }

  /** The samples of a character `v` found at `p`: a space that carries the tone pair, a space
      at the centre of the start bit, eight data bits, and a mark at the centre of the stop bit. */
  ghost predicate Framed(l: Line, p: nat, v: nat) {
    && Shows(l, p, false) && p < |l.valid| && l.valid[p]
    && Shows(l, (p as real + l.spb / 2.0).Floor, false)
    && v < 256 && (forall k: nat | 1 <= k <= 8 :: DataBit(l, p, k, v))
    && Shows(l, (p as real + l.spb / 2.0 + 9.0 * l.spb).Floor, true)
  }

  /** No character is found from `i` up to `end`. */
  ghost predicate Quiet(l: Line, i: int, end: int) {
    forall p: nat, v: nat | i <= p < end :: !Framed(l, p, v)
  }

  /** Where the hunt goes on after a character found at `p`. */
  ghost function Past(l: Line, p: nat): int {
    (p as real + l.spb / 2.0 + 9.0 * l.spb).Floor + (l.spb / 2.0).Floor
  }

  /** From cursor `i` on the line says `out`: each time the first character there is, found
      eleven bits or more before the end, and the hunt goes on past its stop sample. */
  ghost predicate Reads(l: Line, i: int, out: seq<(nat, nat)>)
    decreases |out|
  {
    var end := |l.bits| - (11.0 * l.spb).Floor;
    if out == [] then Quiet(l, i, end)
    else
      var (p, v) := out[0];
      && i <= p < end && Quiet(l, i, p) && Framed(l, p, v)
      && Reads(l, Past(l, p), out[1..])
  }

  lemma AtWritten(l: Line, p: nat, k: nat)
    ensures At(l, p, k) == (p as real + l.spb / 2.0 + k as real * l.spb).Floor
    ensures At(l, p, 0) == (p as real + l.spb / 2.0).Floor
    ensures At(l, p, 9) == (p as real + l.spb / 2.0 + 9.0 * l.spb).Floor
    ensures Resync(l, p) == Past(l, p)
  {
  }

  lemma {:induction false} AllValidEach(l: Line, i: nat, n: nat)
    requires WellFormed(l) && i < Limit(l) && n <= 8
    ensures AllValid(l, i, n)
       <==> forall k: nat | 1 <= k <= n :: 0 <= At(l, i, k) < |l.valid| && l.valid[At(l, i, k)]
  {
    if n > 0 {
      hide At, Limit;
      AllValidEach(l, i, n - 1);
      SamplesInside(l, i, n);
    }
  }

  lemma DataBitIs(l: Line, i: nat, k: nat, v: nat)
    requires WellFormed(l) && i < Limit(l) && 1 <= k <= 8
    ensures 0 <= At(l, i, k) < |l.bits|
    ensures DataBit(l, i, k, v)
       <==> l.valid[At(l, i, k)] && (l.bits[At(l, i, k)] <==> v / Pow2(k - 1) % 2 == 1)
  {
    SamplesInside(l, i, k);
    AtWritten(l, i, k);
    hide At, Limit;
  }

  /** The samples determine the octet. */
  lemma OctetIs(l: Line, i: nat, v: nat)
    requires WellFormed(l) && i < Limit(l) && v < 256 && forall k: nat | 1 <= k <= 8 :: DataBit(l, i, k, v)
    ensures v == Octet(l, i, 8)
  {
    hide At, Limit, Octet, DataBit;
    forall m: nat | 1 <= m <= 8
      ensures 0 <= At(l, i, m) < |l.bits| && l.bits[At(l, i, m)] == BitSent(v, m)
    {
      DataBitIs(l, i, m, v);
    }
    OctetBelow(v, l, i, 8);
    Pow2Values();
    SmallMod(v, 256);
  }

  /** Inside the limit a character is accepted exactly when the samples frame one, and read as
      the octet they frame. */
  lemma FramedExactly(l: Line, i: nat)
    requires WellFormed(l) && i < Limit(l)
    ensures Accepts(l, i) ==> Framed(l, i, Octet(l, i, 8))
    ensures forall v: nat | Framed(l, i, v) :: Accepts(l, i) && v == Octet(l, i, 8)
  {
    hide *;
    if Accepts(l, i) {
      AcceptedIsFramed(l, i);
    }
    forall v: nat | Framed(l, i, v)
      ensures Accepts(l, i) && v == Octet(l, i, 8)
    {
      FramedIsAccepted(l, i, v);
    }
  }

  lemma AcceptedIsFramed(l: Line, i: nat)
    requires WellFormed(l) && i < Limit(l) && Accepts(l, i)
    ensures Framed(l, i, Octet(l, i, 8))
  {
    SamplesInside(l, i, 0);
    SamplesInside(l, i, 9);
    AtWritten(l, i, 0);
    AllValidEach(l, i, 8);
    hide At, Limit, Octet, DataBit, AllValid, Pow2;
    Pow2Values();
    OctetSmall(l, i, 8);
    forall k: nat | 1 <= k <= 8
      ensures DataBit(l, i, k, Octet(l, i, 8))
    {
      OctetBits(l, i, 8, k);
      DataBitIs(l, i, k, Octet(l, i, 8));
    }
  }

  lemma FramedIsAccepted(l: Line, i: nat, v: nat)
    requires WellFormed(l) && i < Limit(l) && Framed(l, i, v)
    ensures Accepts(l, i) && v == Octet(l, i, 8)
  {
    SamplesInside(l, i, 0);
    SamplesInside(l, i, 9);
    AtWritten(l, i, 0);
    AllValidEach(l, i, 8);
    hide At, Limit, Octet, DataBit, AllValid, Pow2;
    OctetIs(l, i, v);
    forall k: nat | 1 <= k <= 8
      ensures 0 <= At(l, i, k) < |l.valid| && l.valid[At(l, i, k)]
    {
      DataBitIs(l, i, k, v);
    }
  }

  /** What is decoded from a cursor on is what the line says there, and nothing else. */
  lemma {:induction false} ReadsExactly(l: Line, i: nat, out: seq<(nat, nat)>)
    requires WellFormed(l)
    ensures Reads(l, i, out) <==> out == Decoded(l, i)
    decreases |l.bits| - i
  {
    hide Decoded, Framed, Accepts, Octet;
    if i >= Limit(l) {
      DecodedEnd(l, i);
    } else {
      FramedExactly(l, i);
      DecodedStep(l, i);
      AtWritten(l, i, 0);
      hide Limit, At, Resync, Past;
      if Accepts(l, i) {
        FoundHere(l, i, out, Octet(l, i, 8));
        if out != [] {
          ReadsExactly(l, Resync(l, i), out[1..]);
          assert out == [out[0]] + out[1..];
        }
      } else {
        ReadsExactly(l, i + 1, out);
        NotFoundHere(l, i, out);
      }
    }
  }

  lemma FoundHere(l: Line, i: nat, out: seq<(nat, nat)>, v: nat)
    requires i < Limit(l) && Framed(l, i, v) && forall w: nat | Framed(l, i, w) :: w == v
    ensures Reads(l, i, out) <==> out != [] && out[0] == (i, v) && Reads(l, Past(l, i), out[1..])
  {
    hide Framed, Past;
  }

  lemma NotFoundHere(l: Line, i: nat, out: seq<(nat, nat)>)
    requires i < Limit(l) && forall v: nat :: !Framed(l, i, v)
    ensures Reads(l, i, out) <==> Reads(l, i + 1, out)
  {
    hide Framed, Past, Quiet;
    QuietStep(l, i, Limit(l));
    if out != [] {
      QuietStep(l, i, out[0].0);
      assert out[0] == (i, out[0].1) ==> !Framed(l, i, out[0].1);
    }
  }

  lemma QuietStep(l: Line, i: nat, end: int)
    requires forall v: nat :: !Framed(l, i, v)
    ensures Quiet(l, i, end) <==> Quiet(l, i + 1, end)
  {
    hide Framed;
    if Quiet(l, i + 1, end) {
      forall p: nat, v: nat | i <= p < end
        ensures !Framed(l, p, v)
      {
        if p == i {
          assert !Framed(l, i, v);
        }
      }
    }
  }

  /** Nothing is emitted that the line does not frame. */
  lemma {:induction false} EmittedIsFramed(l: Line, i: nat, j: nat)
    requires WellFormed(l) && j < |Decoded(l, i)|
    ensures Framed(l, Decoded(l, i)[j].0, Decoded(l, i)[j].1) && i <= Decoded(l, i)[j].0
  {
    EmittedIsSampled(l, i, j);
    hide Decoded, Accepts, Octet, Framed;
    FramedExactly(l, Decoded(l, i)[j].0);
  }

  /** A space that lasts to the end of the line frames nothing that reaches into it. */
  lemma NothingInSpace(l: Line, start: nat, i: nat, j: nat)
    requires WellFormed(l) && (forall p | start <= p < |l.bits| :: !l.bits[p]) && j < |Decoded(l, i)|
    ensures At(l, Decoded(l, i)[j].0, 9) < start
  {
    hide Decoded, Framed, At, Limit;
    EmittedIsFramed(l, i, j);
    EndsAreSeen(l, Decoded(l, i)[j].0, Decoded(l, i)[j].1);
  }

  /** Mark up to such a space, or nothing before it: nothing is emitted at all. */
  lemma SpaceIsSilent(l: Line, start: nat, i: nat)
    requires WellFormed(l) && (forall p | start <= p < |l.bits| :: !l.bits[p])
    requires forall p | i <= p < start && p < |l.bits| :: l.bits[p]
    ensures Decoded(l, i) == []
  {
    hide Decoded, Framed, At, Limit;
    if Decoded(l, i) != [] {
      var p, v := Decoded(l, i)[0].0, Decoded(l, i)[0].1;
      EmittedIsFramed(l, i, 0);
      EndsAreSeen(l, p, v);
      StopIsLater(l, p);
      NothingInSpace(l, start, i, 0);
      assert false;
    }
  }

  lemma EndsAreSeen(l: Line, p: nat, v: nat)
    requires Framed(l, p, v)
    ensures p < |l.bits| && !l.bits[p] && 0 <= At(l, p, 9) < |l.bits| && l.bits[At(l, p, 9)]
  {
    AtWritten(l, p, 0);
  }

  lemma StopIsLater(l: Line, p: nat)
    requires WellFormed(l)
    ensures At(l, p, 9) >= p
  {
    FloorIs(p as real + l.spb / 2.0 + 9.0 * l.spb);
  }

  // ------------------------------------------------------------------- run grouping

  /** Equal characters less than 0.15 s apart, as the report lists them. */
  datatype Run = Run(first: real, last: real, value: nat, count: nat)

  /** Character `j` does not continue the run of the one before it. */
  predicate Breaks(out: seq<(real, nat)>, j: nat)
    requires j < |out|
  {
    j == 0 || out[j].1 != out[j - 1].1 || out[j].0 - out[j - 1].0 >= 0.15
  }

  /** A run is the characters from `a` up to `b`: one value, the first one's time, the last
      one's, and how many. */
  ghost predicate IsRun(out: seq<(real, nat)>, a: nat, b: nat, r: Run) {
    && a < b <= |out| && r == Run(out[a].0, out[b - 1].0, out[a].1, b - a)
    && Breaks(out, a) && forall j | a < j < b :: !Breaks(out, j)
  }

  /** The runs, one after another, are those cut at the breaks up to `n`. */
  ghost predicate RunsUpTo(out: seq<(real, nat)>, cuts: seq<nat>, runs: seq<Run>, n: nat) {
    && |cuts| == |runs| + 1 && cuts[0] == 0 && cuts[|runs|] == n <= |out|
    && forall i | 0 <= i < |runs| :: IsRun(out, cuts[i], cuts[i + 1], runs[i])
  }

  lemma LongerRun(out: seq<(real, nat)>, cuts: seq<nat>, runs: seq<Run>, n: nat, r: Run)
    requires RunsUpTo(out, cuts, runs, n) && runs != [] && n < |out| && !Breaks(out, n)
    requires r == runs[|runs| - 1].(last := out[n].0, count := runs[|runs| - 1].count + 1)
    ensures RunsUpTo(out, cuts[|runs| := n + 1], runs[|runs| - 1 := r], n + 1)
  {
    hide Breaks;
    var more, m := cuts[|runs| := n + 1], |runs| - 1;
    assert IsRun(out, cuts[m], cuts[m + 1], runs[m]);
    assert IsRun(out, more[m], more[m + 1], r);
  }

  lemma NewRun(out: seq<(real, nat)>, cuts: seq<nat>, runs: seq<Run>, n: nat)
    requires RunsUpTo(out, cuts, runs, n) && n < |out| && Breaks(out, n)
    ensures RunsUpTo(out, cuts + [n + 1], runs + [Run(out[n].0, out[n].0, out[n].1, 1)], n + 1)
  {
    hide Breaks;
    assert IsRun(out, n, n + 1, Run(out[n].0, out[n].0, out[n].1, 1));
  }

  /** All runs of one value have it throughout. */
  lemma {:induction false} OneValue(out: seq<(real, nat)>, a: nat, j: nat)
    requires a <= j < |out| && forall k | a < k <= j :: !Breaks(out, k)
    ensures out[j].1 == out[a].1
    decreases j - a
  {
    if a < j {
      OneValue(out, a, j - 1);
      assert !Breaks(out, j);
    }
  }

  /** Inside a run each character repeats the one before it within 0.15 s; at its start one does
      not. */
  lemma RunsPlainly(out: seq<(real, nat)>, cuts: seq<nat>, runs: seq<Run>, i: nat, j: nat)
    requires RunsUpTo(out, cuts, runs, |out|) && i < |runs| && cuts[i] <= j < cuts[i + 1] && j > 0
    ensures j < |out| && if j == cuts[i] then out[j].1 != out[j - 1].1 || out[j].0 >= out[j - 1].0 + 3.0 / 20.0
                         else out[j].1 == out[j - 1].1 && out[j].0 < out[j - 1].0 + 3.0 / 20.0
  {
    assert IsRun(out, cuts[i], cuts[i + 1], runs[i]);
    assert j != cuts[i] ==> !Breaks(out, j);
  }

  /** The grouping loop, which edits the last run in place: the runs are the stretches between
      one break and the next, each with its value, its count and the times of its ends. */
  method GroupRuns(out: seq<(real, nat)>) returns (runs: seq<Run>)
    ensures exists cuts: seq<nat> :: RunsUpTo(out, cuts, runs, |out|)
  {
    hide RunsUpTo;
    runs := [];
    ghost var cuts: seq<nat> := [0];
    NoRuns(out);
    for n := 0 to |out|
      invariant RunsUpTo(out, cuts, runs, n)
    {
      var (t, v) := out[n];
      var m := |runs| - 1;
      LastRun(out, cuts, runs, n);
      if runs != [] && v == runs[m].value && t - runs[m].last < 0.15 {
        var r := runs[m].(last := t, count := runs[m].count + 1);
        LongerRun(out, cuts, runs, n, r);
        cuts := cuts[|runs| := n + 1];
        runs := runs[m := r];
      } else {
        NewRun(out, cuts, runs, n);
        cuts := cuts + [n + 1];
        runs := runs + [Run(t, t, v, 1)];
      }
    }
  }

  lemma NoRuns(out: seq<(real, nat)>)
    ensures RunsUpTo(out, [0], [], 0)
  {
  }

  /** The last run ends with the character before, so it says whether the next one breaks. */
  lemma LastRun(out: seq<(real, nat)>, cuts: seq<nat>, runs: seq<Run>, n: nat)
    requires RunsUpTo(out, cuts, runs, n) && n < |out|
    ensures |cuts| == |runs| + 1 && (runs == [] <==> n == 0)
    ensures runs != [] ==> runs[|runs| - 1].last == out[n - 1].0 && runs[|runs| - 1].value == out[n - 1].1
  {
    if runs != [] {
      var m := |runs| - 1;
      assert IsRun(out, cuts[m], cuts[m + 1], runs[m]);
      OneValue(out, cuts[m], n - 1);
    }
  }
}

/** What an HDLC line carries: flags, and frames with a zero inserted after every five
    ones.  This is the reference both directions of the codec are proved against. */
module HdlcLine {
  import opened Seqs
  import opened Bits

  /** 0x7E. */
  const FLAG: Bits := [false, true, true, true, true, true, true, false]

  /** Zero insertion; `ones` ones have just been sent. */
  function Stuff(bits: Bits, ones: nat): Bits
    requires ones < 5
    decreases |bits|
  {
    if bits == [] then []
    else if !bits[0] then [false] + Stuff(bits[1..], 0)
    else if ones == 4 then [true, false] + Stuff(bits[1..], 0)
    else [true] + Stuff(bits[1..], ones + 1)
  }

  /** The run of ones that ends the stuffed bits. */
  function Run(bits: Bits, ones: nat): (r: nat)
    requires ones < 5
    ensures r < 5
    decreases |bits|
  {
    if bits == [] then ones
    else if !bits[0] || ones == 4 then Run(bits[1..], 0)
    else Run(bits[1..], ones + 1)
  }

  /** The line is a sequence of idle flags and of frames behind three flags. */
  datatype Segment = Idle | Frame(octets: seq<nat>)

  function SegmentBits(s: Segment): Bits {
    match s
    case Idle => FLAG
    case Frame(octets) => FLAG + (FLAG + (FLAG + Stuff(FrameBits(octets), 0)))
  }

  function LineBits(segments: seq<Segment>): Bits {
    if segments == [] then [] else SegmentBits(segments[0]) + LineBits(segments[1..])
  }

  /** The low octets of a frame: all that the line carries of its elements. */
  function LowOctets(octets: seq<nat>): (r: seq<nat>)
    ensures |r| == |octets|
  {
    seq(|octets|, i requires 0 <= i < |octets| => octets[i] % 256)
  }

  /** The frames on a line, in order. */
  function Frames(segments: seq<Segment>): seq<seq<nat>> {
    if segments == [] then []
    else (if segments[0].Frame? then [segments[0].octets] else []) + Frames(segments[1..])
  }

  lemma {:induction false} LineBitsSnoc(segments: seq<Segment>, s: Segment)
    ensures LineBits(segments + [s]) == LineBits(segments) + SegmentBits(s)
  {
    hide SegmentBits;
    if segments == [] {
      assert [] + [s] == [s];
      assert LineBits([s]) == SegmentBits(s) + [];
    } else {
      var first, rest := segments[0], segments[1..];
      LineBitsSnoc(rest, s);
      assert segments + [s] == [first] + (rest + [s]);
      LineBitsCons(first, rest + [s]);
      Associate(SegmentBits(first), LineBits(rest), SegmentBits(s));
    }
  }

  lemma LineBitsCons(first: Segment, rest: seq<Segment>)
    ensures LineBits([first] + rest) == SegmentBits(first) + LineBits(rest)
  {
    assert ([first] + rest)[1..] == rest;
  }

  lemma {:induction false} FramesSnoc(segments: seq<Segment>, s: Segment)
    ensures Frames(segments + [s]) == Frames(segments) + (if s.Frame? then [s.octets] else [])
  {
    if segments == [] {
      assert [] + [s] == [s] + [];
      FramesCons(s, []);
    } else {
      hide Frames;
      var first, rest := segments[0], segments[1..];
      FramesSnoc(rest, s);
      assert segments + [s] == [first] + (rest + [s]) && segments == [first] + rest;
      FramesCons(first, rest + [s]);
      FramesCons(first, rest);
      Associate(if first.Frame? then [first.octets] else [], Frames(rest), if s.Frame? then [s.octets] else []);
    }
  }

  lemma FramesCons(first: Segment, rest: seq<Segment>)
    ensures Frames([first] + rest) == (if first.Frame? then [first.octets] else []) + Frames(rest)
  {
    assert ([first] + rest)[1..] == rest;
  }

  lemma {:induction false} LowOctetBits(octets: seq<nat>)
    ensures FrameBits(LowOctets(octets)) == FrameBits(octets)
  {
    if octets != [] {
      LowOctetBits(octets[1..]);
      assert LowOctets(octets)[1..] == LowOctets(octets[1..]);
      ValueOfOctet(octets[0]);
      BitsOfValue(OctetBits(octets[0]));
    }
  }

  // -------------------------------------------------------------- what zero insertion does

  /** `n` ones in a row from bit `i` on. */
  ghost predicate OnesAt(bits: Bits, i: nat, n: nat) {
    i + n <= |bits| && forall j | i <= j < i + n :: bits[j]
  }

  /** Stuffed bits never hold six ones in a row, so no flag: with `ones` just sent, fewer than
      six at their start. */
  lemma {:induction false} NoFlagInside(bits: Bits, ones: nat)
    requires ones < 5
    ensures !OnesAt(Stuff(bits, ones), 0, 6 - ones)
    ensures forall i: nat :: !OnesAt(Stuff(bits, ones), i, 6)
    decreases |bits|
  {
    if bits != [] {
      var s, after := Stuff(bits, ones), if !bits[0] || ones == 4 then 0 else ones + 1;
      var rest := Stuff(bits[1..], after);
      NoFlagInside(bits[1..], after);
      hide OnesAt, Stuff;
      if !bits[0] {
        assert s == [false] + rest;
        NoneAcrossZero(s, rest);
      } else if ones == 4 {
        assert s == [true, false] + rest;
        NoneAcrossZero(s[1..], rest);
        NoneAcross(s);
      } else {
        assert s == [true] + rest;
        NoneAcross(s);
        FewerOnes(rest, 5 - ones, 5);
        OneMore(s, 5);
        OneMore(s, 5 - ones);
      }
    }
  }

  lemma OneMore(s: Bits, n: nat)
    requires s != []
    ensures OnesAt(s, 0, n + 1) ==> OnesAt(s[1..], 0, n)
  {
  }

  lemma FewerOnes(s: Bits, n: nat, m: nat)
    requires n <= m
    ensures OnesAt(s, 0, m) ==> OnesAt(s, 0, n)
  {
  }

  /** A run past the first bit is a run of the rest. */
  lemma NoneAcross(s: Bits)
    requires s != [] && forall i: nat :: !OnesAt(s[1..], i, 6)
    ensures forall i: nat | i > 0 :: !OnesAt(s, i, 6)
    ensures !OnesAt(s[1..], 0, 5) ==> forall i: nat :: !OnesAt(s, i, 6)
    ensures |s| > 1 && !s[1] ==> forall i: nat :: !OnesAt(s, i, 6)
    ensures |s| > 1 && !s[1] ==> !OnesAt(s, 0, 2)
  {
    forall i: nat | i > 0
      ensures !OnesAt(s, i, 6)
    {
      assert OnesAt(s, i, 6) ==> OnesAt(s[1..], i - 1, 6);
    }
    OneMore(s, 5);
  }

  lemma NoneAcrossZero(s: Bits, rest: Bits)
    requires s == [false] + rest && forall i: nat :: !OnesAt(rest, i, 6)
    ensures forall i: nat :: !OnesAt(s, i, 6)
    ensures forall n: nat | n > 0 :: !OnesAt(s, 0, n)
  {
    assert s[1..] == rest;
    NoneAcross(s);
    assert !s[0];
  }

  /** Nothing is inserted before five ones in a row. */
  lemma {:induction false} FiveOnesFirst(bits: Bits, ones: nat)
    requires ones < 5 && !OnesAt(bits, 0, 5 - ones) && forall i: nat :: !OnesAt(bits, i, 5)
    ensures Stuff(bits, ones) == bits
    decreases |bits|
  {
    if bits != [] {
      var after := if bits[0] then ones + 1 else 0;
      var rest := bits[1..];
      OneMoreBefore(bits, 4 - ones);
      hide OnesAt;
      assert bits == [bits[0]] + rest;
      FiveOnesFirst(rest, after);
    }
  }

  lemma OneMoreBefore(bits: Bits, n: nat)
    requires bits != [] && n < 5 && forall i: nat :: !OnesAt(bits, i, 5)
    ensures forall i: nat :: !OnesAt(bits[1..], i, 5)
    ensures bits[0] && OnesAt(bits[1..], 0, n) ==> OnesAt(bits, 0, n + 1)
  {
    forall i: nat
      ensures !OnesAt(bits[1..], i, 5)
    {
      assert OnesAt(bits[1..], i, 5) ==> OnesAt(bits, i + 1, 5);
    }
  }

  /** After the fifth one in a row a zero is inserted. */
  lemma ZeroAfterFive(rest: Bits)
    ensures Stuff(Ones(5) + rest, 0) == Ones(5) + [false] + Stuff(rest, 0)
  {
    var a := Ones(5) + rest;
    assert a[1..][1..][1..][1..][1..] == rest;
    assert Stuff(a, 0) == [true] + Stuff(a[1..], 1);
    assert Stuff(a[1..], 1) == [true] + Stuff(a[1..][1..], 2);
    assert Stuff(a[1..][1..], 2) == [true] + Stuff(a[1..][1..][1..], 3);
    assert Stuff(a[1..][1..][1..], 3) == [true] + Stuff(a[1..][1..][1..][1..], 4);
    assert Stuff(a[1..][1..][1..][1..], 4) == [true, false] + Stuff(rest, 0);
  }
}
